/** The printing half of cJSON.c: every routine computes the size of its buffer first and fills it then. */
module JsonPrint {
  import opened JsonText
  import opened JsonRoundTrip
  import opened JsonItem

  /** The buffer begins with `t` and a zero byte. */
  ghost predicate Filled(a: array<Byte>, t: Text)
    reads a
  {
    |t| < a.Length && a[..|t|] == t && a[|t|] == 0
  }

  /** The buffer is the string `t`. */
  ghost predicate Holds(a: array<Byte>, t: Text)
    reads a
  {
    Filled(a, t) && 0 !in t
  }

  // ----- The library routines -----

  method StrLen(a: array<Byte>, ghost t: Text) returns (n: nat)
    requires Holds(a, t)
    ensures n == |t|
  {
    n := 0;
    assert forall k {:trigger a[k]} :: 0 <= k < |t| ==> a[k] == a[..|t|][k] && t[k] in t;
    while a[n] != 0
      invariant n <= |t|
      decreases |t| - n
    {
      n := n + 1;
    }
  }

  // Writes `t` at `at`.
  method Store(out: array<Byte>, at: nat, t: Text)
    requires at + |t| <= out.Length
    modifies out
    ensures out[..at] == old(out[..at]) && out[at..at + |t|] == t && out[at + |t|..] == old(out[at + |t|..])
  {
    var i := 0;
    while i < |t|
      invariant i <= |t| && out[..at] == old(out[..at]) && out[at..at + i] == t[..i] && out[at + |t|..] == old(out[at + |t|..])
    {
      out[at + i] := t[i];
      i := i + 1;
    }
  }

  // Appends `t` to the `n` bytes written so far.
  method Append(out: array<Byte>, n: nat, t: Text) returns (n': nat)
    requires n + |t| <= out.Length
    modifies out
    ensures n' == n + |t| && out[..n'] == old(out[..n]) + t
  {
    Store(out, n, t);
    n' := n + |t|;
    assert out[..n'] == out[..n] + out[n..n'];
  }

  // Writes a zero byte behind the `n` bytes written so far, to be written over by what follows.
  method EndHere(out: array<Byte>, n: nat)
    requires n < out.Length
    modifies out
    ensures out[..n] == old(out[..n])
  {
    out[n] := 0;
  }

  // Copies a string with its zero byte; returns the place of that byte.
  method StrCpy(out: array<Byte>, at: nat, src: array<Byte>, ghost t: Text) returns (n: nat)
    requires Holds(src, t) && src != out && at + |t| < out.Length
    modifies out
    ensures n == at + |t| && out[..n] == old(out[..at]) + t
  {
    var len := StrLen(src, t);
    n := at;
    assert src[..0] == [];
    for i := 0 to len
      invariant n == at + i && out[..n] == old(out[..at]) + src[..i]
    {
      out[n] := src[i];
      n := n + 1;
      assert src[..i + 1] == src[..i] + [src[i]];
    }
    out[n] := 0;
  }

  lemma Terminated(out: array<Byte>, n: nat, t: Text)
    requires n <= out.Length && out[..n] == t + [0]
    ensures Filled(out, t)
  {
    assert |t| + 1 == n;
    assert out[..|t|] == out[..n][..|t|] && out[|t|] == out[..n][|t|];
  }

  // ----- Strings -----

  lemma EscapedNext(s: Text, i: nat)
    requires i < |s|
    ensures Escaped(s[i..]) == Escape(s[i]) + Escaped(s[i + 1..])
  {
    assert s[i..][1..] == s[i + 1..];
  }

  predicate HasShortEscape(c: Byte) {
    c == QUOTE || c == BACKSLASH || c == 0x08 || c == 0x0C || c == 0x0A || c == 0x0D || c == 0x09
  }

  lemma EscapeSize(c: Byte)
    ensures |Escape(c)| == if HasShortEscape(c) then 2 else if c < 32 then 6 else 1
  {
  }

  // The first pass: how much the escapes need.
  method EscapedLength(str: Text) returns (len: nat)
    ensures len == |Escaped(str)|
  {
    hide Escape;
    hide HasShortEscape;
    len := 0;
    var ptr := 0;
    assert str[0..] == str;
    while ptr < |str|
      invariant ptr <= |str| && len + |Escaped(str[ptr..])| == |Escaped(str)|
    {
      var token := str[ptr];
      EscapedNext(str, ptr);
      EscapeSize(token);
      len := len + 1;
      if HasShortEscape(token) {
        len := len + 1;
      } else if token < 32 {
        len := len + 5;
      }
      ptr := ptr + 1;
    }
  }

  // The second pass, for one character.  The library ends the digits of a code with a zero byte of its own.
  method WriteEscaped(out: array<Byte>, n: nat, c: Byte) returns (n': nat)
    requires n + |Escape(c)| < out.Length
    modifies out
    ensures n' == n + |Escape(c)| && out[..n'] == old(out[..n]) + Escape(c)
  {
    if c > 31 && c != QUOTE && c != BACKSLASH {
      n' := Append(out, n, [c]);
    } else {
      n' := Append(out, n, [BACKSLASH]);
      ghost var was := out[..n'];
      if c == BACKSLASH {
        n' := Append(out, n', [BACKSLASH]);
      } else if c == QUOTE {
        n' := Append(out, n', [QUOTE]);
      } else if c == 0x08 {
        n' := Append(out, n', [0x62]);
      } else if c == 0x0C {
        n' := Append(out, n', [0x66]);
      } else if c == 0x0A {
        n' := Append(out, n', [0x6E]);
      } else if c == 0x0D {
        n' := Append(out, n', [0x72]);
      } else if c == 0x09 {
        n' := Append(out, n', [0x74]);
      } else {
        n' := Append(out, n', [0x75, 0x30, 0x30, HexDigit(c >> 4), HexDigit(c & 15)]);
        EndHere(out, n');
      }
    }
  }

  lemma {:induction false} EscapedNoZero(s: Text)
    requires 0 !in s
    ensures 0 !in Escaped(s)
  {
    if s != [] {
      EscapeNoZero(s[0]);
      EscapedNoZero(s[1..]);
    }
  }

  lemma EscapeNoZero(c: Byte)
    requires c != 0
    ensures 0 !in Escape(c)
  {
  }

  /** The quoted string fills its buffer exactly. */
  method PrintStringPtr(str: Text) returns (out: array<Byte>)
    requires 0 !in str
    ensures fresh(out) && out.Length == |Quoted(str)| + 1 && Holds(out, Quoted(str))
  {
    hide Escape;
    var len := EscapedLength(str);
    out := new Byte[len + 3];
    var n := Append(out, 0, [QUOTE]);
    var ptr := 0;
    assert str[0..] == str;
    while ptr < |str|
      invariant ptr <= |str| && 0 <= n == len + 1 - |Escaped(str[ptr..])|
      invariant out[..n] + Escaped(str[ptr..]) == [QUOTE] + Escaped(str)
    {
      EscapedNext(str, ptr);
      n := WriteEscaped(out, n, str[ptr]);
      ptr := ptr + 1;
    }
    n := Append(out, n, [QUOTE]);
    n := Append(out, n, [0]);
    assert out[..n] == Quoted(str) + [0];
    Terminated(out, n, Quoted(str));
    EscapedNoZero(str);
  }

  // ----- Numbers -----

  ghost function Pow10(k: nat): nat {
    if k == 0 then 1 else 10 * Pow10(k - 1)
  }

  lemma {:induction false} DigitsLength(n: nat, k: nat)
    requires k > 0 && n < Pow10(k)
    ensures |Digits(n)| <= k
  {
    if n >= 10 {
      DigitsLength(n / 10, k - 1);
    }
  }

  lemma DecimalLength(n: int)
    requires INT_MIN <= n <= INT_MAX
    ensures |Decimal(n)| <= 11
  {
    assert Pow10(10) == 10000000000;
    DigitsLength(if n < 0 then -n else n, 10);
  }

  lemma {:induction false} DigitsNoZero(n: nat)
    ensures 0 !in Digits(n)
  {
    DigitBack(n % 10);
    if n >= 10 {
      DigitsNoZero(n / 10);
    }
  }

  /** The integer case: the library prints the digits, which fit the fixed buffer. */
  method PrintNumber(n: int) returns (out: array<Byte>)
    requires INT_MIN <= n <= INT_MAX
    ensures fresh(out) && out.Length == 21 && Holds(out, Decimal(n))
  {
    hide Decimal;
    DecimalLength(n);
    out := new Byte[21];
    var k := Append(out, 0, Decimal(n));
    k := Append(out, k, [0]);
    assert out[..k] == Decimal(n) + [0];
    Terminated(out, k, Decimal(n));
    DecimalNoZero(n);
  }

  lemma DecimalNoZero(n: int)
    ensures 0 !in Decimal(n)
  {
    DigitsNoZero(if n < 0 then -n else n);
  }

  method StrDup(t: Text) returns (out: array<Byte>)
    requires 0 !in t
    ensures fresh(out) && out.Length == |t| + 1 && Holds(out, t)
  {
    out := new Byte[|t| + 1];
    var k := Append(out, 0, t);
    k := Append(out, k, [0]);
    assert out[..k] == t + [0];
    Terminated(out, k, t);
  }

  // ----- No print holds a zero byte -----

  lemma {:induction false} PrintNoZero(v: Value, depth: nat, fmt: bool)
    requires Proper(v)
    ensures 0 !in Print(v, depth, fmt)
    decreases v, Count(v) + 1
  {
    match v
    case Num(n) => DecimalNoZero(n);
    case Str(s) => EscapedNoZero(s);
    case Arr(items) => ItemsNoZero(v, 0, depth, fmt);
    case Obj(fields) => FieldsNoZero(v, 0, depth + 1, fmt);
    case _ =>
  }

  lemma {:induction false} ItemsNoZero(v: Value, k: nat, depth: nat, fmt: bool)
    requires v.Arr? && Proper(v) && k <= |v.items|
    ensures 0 !in PrintItems(v, k, depth, fmt)
    decreases v, Count(v) - k
  {
    if k < |v.items| {
      PrintNoZero(v.items[k], depth + 1, fmt);
      ItemsNoZero(v, k + 1, depth, fmt);
    }
  }

  lemma {:induction false} FieldsNoZero(v: Value, k: nat, depth: nat, fmt: bool)
    requires v.Obj? && Proper(v) && k <= |v.fields|
    ensures 0 !in PrintFields(v, k, depth, fmt)
    decreases v, Count(v) - k
  {
    hide Print, JsonText.PrintField, Quoted;
    if k < |v.fields| {
      PrintNoZero(v.fields[k].value, depth, fmt);
      FieldNoZero(v.fields[k], k + 1 == |v.fields|, depth, fmt);
      FieldsNoZero(v, k + 1, depth, fmt);
    }
  }

  lemma FieldNoZero(f: Field, last: bool, depth: nat, fmt: bool)
    requires 0 !in f.name && 0 !in Print(f.value, depth, fmt)
    ensures 0 !in JsonText.PrintField(f, last, depth, fmt)
  {
    hide Print;
    EscapedNoZero(f.name);
  }

  // ----- Lists -----

  /** The printed elements so far. */
  ghost predicate EntriesHold(entries: array<array?<Byte>>, ts: seq<Text>)
    reads entries, set j | 0 <= j < entries.Length && entries[j] != null :: entries[j]
  {
    && |ts| <= entries.Length
    && (forall j {:trigger entries[j]} {:trigger ts[j]} :: 0 <= j < |ts| ==>
          entries[j] != null && entries[j] as object != entries as object && Holds(entries[j], ts[j]))
  }

  ghost function JoinItems(ts: seq<Text>, k: nat, fmt: bool): Text
    requires k <= |ts|
    decreases |ts| - k
  {
    if k == |ts| then [] else ts[k] + ItemEnd(k + 1 == |ts|, fmt) + JoinItems(ts, k + 1, fmt)
  }

  // What the first pass adds up for the first `k` elements.
  ghost function Room(ts: seq<Text>, k: nat, fmt: bool): nat
    requires k <= |ts|
  {
    if k == 0 then 0 else Room(ts, k - 1, fmt) + |ts[k - 1]| + 2 + if fmt then 1 else 0
  }

  lemma {:induction false} RoomGrows(ts: seq<Text>, k: nat, n: nat, fmt: bool)
    requires k <= n <= |ts|
    ensures Room(ts, k, fmt) <= Room(ts, n, fmt)
  {
    if k < n {
      RoomGrows(ts, k, n - 1, fmt);
    }
  }

  lemma {:induction false} RoomPrefix(ts: seq<Text>, t: Text, k: nat, fmt: bool)
    requires k <= |ts|
    ensures Room(ts + [t], k, fmt) == Room(ts, k, fmt)
  {
    if k > 0 {
      RoomPrefix(ts, t, k - 1, fmt);
    }
  }

  lemma RoomNext(ts: seq<Text>, t: Text, fmt: bool)
    ensures Room(ts + [t], |ts| + 1, fmt) == Room(ts, |ts|, fmt) + |t| + 2 + if fmt then 1 else 0
  {
    RoomPrefix(ts, t, |ts|, fmt);
  }

  // Writes one element and what comes behind it.
  method ComposeItem(out: array<Byte>, p: nat, entry: array<Byte>, last: bool, fmt: bool, ghost t: Text) returns (p': nat)
    requires Holds(entry, t) && out != entry && p + |t| + 2 + (if fmt then 1 else 0) <= out.Length
    modifies out
    ensures p' == p + |t| + |ItemEnd(last, fmt)| && out[..p'] == old(out[..p]) + (t + ItemEnd(last, fmt))
  {
    p' := StrCpy(out, p, entry, t);
    if !last {
      p' := Append(out, p', [COMMA]);
      if fmt {
        p' := Append(out, p', [SPACE]);
      }
      EndHere(out, p');
    }
  }

  /** Puts the printed elements together, in a buffer of the size that was added up. */
  method ComposeArray(entries: array<array?<Byte>>, n: nat, len: nat, fmt: bool, ghost ts: seq<Text>) returns (out: array<Byte>)
    requires EntriesHold(entries, ts) && |ts| == n && len == 5 + Room(ts, n, fmt)
    ensures fresh(out) && out.Length == len
    ensures Filled(out, [OPEN_LIST] + JoinItems(ts, 0, fmt) + [CLOSE_LIST])
  {
    hide *;
    RoomGrows(ts, 0, n, fmt);
    out := new Byte[len];
    var p := Append(out, 0, [OPEN_LIST]);
    EndHere(out, p);
    ghost var text := [OPEN_LIST] + JoinItems(ts, 0, fmt);
    var i := 0;
    while i < n
      invariant 0 <= i <= n && 0 <= p <= 1 + Room(ts, i, fmt) && p + 4 <= len && EntriesHold(entries, ts)
      invariant out[..p] + JoinItems(ts, i, fmt) == text
    {
      RoomAt(ts, i, fmt);
      RoomGrows(ts, i + 1, n, fmt);
      JoinNext(out[..p], ts, i, fmt);
      EntryAt(entries, ts, i);
      p := ComposeItem(out, p, entries[i], i == n - 1, fmt, ts[i]);
      i := i + 1;
    }
    JoinEnd(ts, fmt);
    p := Append(out, p, [CLOSE_LIST]);
    p := Append(out, p, [0]);
    Terminated(out, p, text + [CLOSE_LIST]);
  }

  lemma EntryAt(entries: array<array?<Byte>>, ts: seq<Text>, i: nat)
    requires EntriesHold(entries, ts) && i < |ts|
    ensures i < entries.Length && entries[i] != null && Holds(entries[i], ts[i])
  {
  }

  lemma RoomAt(ts: seq<Text>, i: nat, fmt: bool)
    requires i < |ts|
    ensures Room(ts, i + 1, fmt) == Room(ts, i, fmt) + |ts[i]| + 2 + if fmt then 1 else 0
  {
  }

  lemma JoinEnd(ts: seq<Text>, fmt: bool)
    ensures JoinItems(ts, |ts|, fmt) == []
  {
  }

  lemma JoinNext(b: Text, ts: seq<Text>, k: nat, fmt: bool)
    requires k < |ts|
    ensures b + JoinItems(ts, k, fmt) == b + (ts[k] + ItemEnd(k + 1 == |ts|, fmt)) + JoinItems(ts, k + 1, fmt)
    ensures |ItemEnd(k + 1 == |ts|, fmt)| <= 1 + if fmt then 1 else 0
  {
  }

  // ----- Objects -----

  ghost function JoinField(name: Text, t: Text, last: bool, depth: nat, fmt: bool): Text {
    Tabs(depth, fmt) + name + FieldMiddle(fmt) + t + FieldEnd(last, fmt)
  }

  ghost function JoinFields(ns: seq<Text>, ts: seq<Text>, k: nat, depth: nat, fmt: bool): Text
    requires k <= |ts| == |ns|
    decreases |ts| - k
  {
    if k == |ts| then [] else JoinField(ns[k], ts[k], k + 1 == |ts|, depth, fmt) + JoinFields(ns, ts, k + 1, depth, fmt)
  }

  ghost function FieldRoom(ns: seq<Text>, ts: seq<Text>, k: nat, depth: nat, fmt: bool): nat
    requires k <= |ts| == |ns|
  {
    if k == 0 then 0
    else FieldRoom(ns, ts, k - 1, depth, fmt) + |ts[k - 1]| + |ns[k - 1]| + 2 + if fmt then 2 + depth else 0
  }

  lemma {:induction false} FieldRoomGrows(ns: seq<Text>, ts: seq<Text>, k: nat, n: nat, depth: nat, fmt: bool)
    requires k <= n <= |ts| == |ns|
    ensures FieldRoom(ns, ts, k, depth, fmt) <= FieldRoom(ns, ts, n, depth, fmt)
  {
    if k < n {
      FieldRoomGrows(ns, ts, k, n - 1, depth, fmt);
    }
  }

  lemma {:induction false} FieldRoomPrefix(ns: seq<Text>, ts: seq<Text>, s: Text, t: Text, k: nat, depth: nat, fmt: bool)
    requires k <= |ts| == |ns|
    ensures FieldRoom(ns + [s], ts + [t], k, depth, fmt) == FieldRoom(ns, ts, k, depth, fmt)
  {
    if k > 0 {
      FieldRoomPrefix(ns, ts, s, t, k - 1, depth, fmt);
    }
  }

  lemma FieldRoomNext(ns: seq<Text>, ts: seq<Text>, s: Text, t: Text, depth: nat, fmt: bool)
    requires |ts| == |ns|
    ensures FieldRoom(ns + [s], ts + [t], |ts| + 1, depth, fmt)
         == FieldRoom(ns, ts, |ts|, depth, fmt) + |t| + |s| + 2 + if fmt then 2 + depth else 0
  {
    FieldRoomPrefix(ns, ts, s, t, |ts|, depth, fmt);
  }

  lemma FieldRoomAt(ns: seq<Text>, ts: seq<Text>, i: nat, depth: nat, fmt: bool)
    requires i < |ts| == |ns|
    ensures FieldRoom(ns, ts, i + 1, depth, fmt) == FieldRoom(ns, ts, i, depth, fmt) + |ts[i]| + |ns[i]| + 2 + if fmt then 2 + depth else 0
    ensures forall last :: |JoinField(ns[i], ts[i], last, depth, fmt)| <= |ts[i]| + |ns[i]| + 2 + if fmt then 2 + depth else 0
  {
  }

  lemma JoinFieldNext(b: Text, ns: seq<Text>, ts: seq<Text>, k: nat, depth: nat, fmt: bool)
    requires k < |ts| == |ns|
    ensures b + JoinFields(ns, ts, k, depth, fmt)
         == b + JoinField(ns[k], ts[k], k + 1 == |ts|, depth, fmt) + JoinFields(ns, ts, k + 1, depth, fmt)
  {
  }

  lemma JoinFieldEnd(ns: seq<Text>, ts: seq<Text>, depth: nat, fmt: bool)
    requires |ts| == |ns|
    ensures JoinFields(ns, ts, |ts|, depth, fmt) == []
  {
  }

  method WriteTabs(out: array<Byte>, p: nat, depth: nat, fmt: bool) returns (p': nat)
    requires p + |Tabs(depth, fmt)| <= out.Length
    modifies out
    ensures p' == p + |Tabs(depth, fmt)| && out[..p'] == old(out[..p]) + Tabs(depth, fmt)
  {
    p' := p;
    if fmt {
      for j := 0 to depth
        invariant p' == p + j && out[..p'] == old(out[..p]) + Repeat(TAB, j)
      {
        p' := Append(out, p', [TAB]);
        assert Repeat(TAB, j) + [TAB] == Repeat(TAB, j + 1);
      }
    }
  }

  method WriteColon(out: array<Byte>, p: nat, fmt: bool) returns (p': nat)
    requires p + |FieldMiddle(fmt)| <= out.Length
    modifies out
    ensures p' == p + |FieldMiddle(fmt)| && out[..p'] == old(out[..p]) + FieldMiddle(fmt)
  {
    p' := Append(out, p, [COLON]);
    if fmt {
      p' := Append(out, p', [TAB]);
    }
  }

  method WriteEnd(out: array<Byte>, p: nat, last: bool, fmt: bool) returns (p': nat)
    requires p + |FieldEnd(last, fmt)| < out.Length
    modifies out
    ensures p' == p + |FieldEnd(last, fmt)| && out[..p'] == old(out[..p]) + FieldEnd(last, fmt)
  {
    p' := p;
    if !last {
      p' := Append(out, p', [COMMA]);
    }
    if fmt {
      p' := Append(out, p', [NEWLINE]);
    }
    EndHere(out, p');
  }

  lemma FivePieces(x: Text, a: Text, b: Text, c: Text, d: Text, e: Text)
    ensures x + a + b + c + d + e == x + (a + b + c + d + e)
    ensures |a + b + c + d + e| == |a| + |b| + |c| + |d| + |e|
  {
  }

  // Writes one field on its line.
  method ComposeField(out: array<Byte>, p: nat, name: array<Byte>, entry: array<Byte>, last: bool, depth: nat, fmt: bool, ghost s: Text, ghost t: Text)
    returns (p': nat)
    requires Holds(name, s) && Holds(entry, t) && out != entry && out != name
    requires p + |JoinField(s, t, last, depth, fmt)| < out.Length
    modifies out
    ensures p' == p + |JoinField(s, t, last, depth, fmt)| && out[..p'] == old(out[..p]) + JoinField(s, t, last, depth, fmt)
  {
    hide Tabs;
    hide FieldMiddle;
    hide FieldEnd;
    hide Holds;
    FivePieces(out[..p], Tabs(depth, fmt), s, FieldMiddle(fmt), t, FieldEnd(last, fmt));
    p' := WriteTabs(out, p, depth, fmt);
    p' := StrCpy(out, p', name, s);
    p' := WriteColon(out, p', fmt);
    p' := StrCpy(out, p', entry, t);
    p' := WriteEnd(out, p', last, fmt);
  }

  method ComposeObject(names: array<array?<Byte>>, entries: array<array?<Byte>>, n: nat, len: nat, depth: nat, fmt: bool,
                       ghost ns: seq<Text>, ghost ts: seq<Text>) returns (out: array<Byte>)
    requires EntriesHold(names, ns) && EntriesHold(entries, ts) && |ts| == |ns| == n && depth > 0
    requires len == 7 + (if fmt then depth else 0) + FieldRoom(ns, ts, n, depth, fmt)
    ensures fresh(out) && out.Length == len
    ensures Filled(out, [OPEN_OBJECT] + LineEnd(fmt) + JoinFields(ns, ts, 0, depth, fmt) + Tabs(depth - 1, fmt) + [CLOSE_OBJECT])
  {
    hide *;
    FieldRoomGrows(ns, ts, 0, n, depth, fmt);
    out := new Byte[len];
    var p := StartObject(out, fmt);
    p := WriteFields(names, entries, n, out, p, depth, fmt, ns, ts);
    FinishObject(out, p, depth - 1, fmt);
  }

  method StartObject(out: array<Byte>, fmt: bool) returns (p: nat)
    requires out.Length >= 3
    modifies out
    ensures p <= 2 && p <= out.Length && out[..p] == [OPEN_OBJECT] + LineEnd(fmt)
  {
    p := Append(out, 0, [OPEN_OBJECT]);
    p := NewLine(out, p, fmt);
    EndHere(out, p);
  }

  method FinishObject(out: array<Byte>, p: nat, depth: nat, fmt: bool)
    requires p + (if fmt then depth else 0) + 2 <= out.Length
    modifies out
    ensures Filled(out, old(out[..p]) + Tabs(depth, fmt) + [CLOSE_OBJECT])
  {
    hide *;
    TabsLength(depth, fmt);
    var n := WriteTabs(out, p, depth, fmt);
    n := Append(out, n, [CLOSE_OBJECT]);
    n := Append(out, n, [0]);
    Terminated(out, n, old(out[..p]) + Tabs(depth, fmt) + [CLOSE_OBJECT]);
  }

  method WriteFields(names: array<array?<Byte>>, entries: array<array?<Byte>>, n: nat, out: array<Byte>, p0: nat, depth: nat, fmt: bool,
                     ghost ns: seq<Text>, ghost ts: seq<Text>) returns (p: nat)
    requires EntriesHold(names, ns) && EntriesHold(entries, ts) && |ts| == |ns| == n
    requires out as object != names as object && out as object != entries as object && out !in names[..] && out !in entries[..]
    requires p0 + FieldRoom(ns, ts, n, depth, fmt) < out.Length
    modifies out
    ensures p <= p0 + FieldRoom(ns, ts, n, depth, fmt) && out[..p] == old(out[..p0]) + JoinFields(ns, ts, 0, depth, fmt)
  {
    hide *;
    p := p0;
    ghost var text := out[..p] + JoinFields(ns, ts, 0, depth, fmt);
    FieldRoomGrows(ns, ts, 0, n, depth, fmt);
    var i := 0;
    while i < n
      invariant 0 <= i <= n && 0 <= p <= p0 + FieldRoom(ns, ts, i, depth, fmt) && p < out.Length
      invariant EntriesHold(names, ns) && EntriesHold(entries, ts) && out !in names[..] && out !in entries[..]
      invariant out[..p] + JoinFields(ns, ts, i, depth, fmt) == text
    {
      FieldRoomAt(ns, ts, i, depth, fmt);
      FieldRoomGrows(ns, ts, i + 1, n, depth, fmt);
      JoinFieldNext(out[..p], ns, ts, i, depth, fmt);
      EntryAt(names, ns, i);
      EntryAt(entries, ts, i);
      assert names[i] in names[..] && entries[i] in entries[..];
      p := ComposeField(out, p, names[i], entries[i], i == n - 1, depth, fmt, ns[i], ts[i]);
      assert forall j {:trigger names[j]} :: 0 <= j < names.Length ==> names[j] in names[..];
      assert forall j {:trigger entries[j]} :: 0 <= j < entries.Length ==> entries[j] in entries[..];
      i := i + 1;
    }
    JoinFieldEnd(ns, ts, depth, fmt);
  }

  lemma TabsLength(depth: nat, fmt: bool)
    ensures |Tabs(depth, fmt)| == if fmt then depth else 0
  {
  }

  method NewLine(out: array<Byte>, p: nat, fmt: bool) returns (p': nat)
    requires p < out.Length
    modifies out
    ensures p' == p + |LineEnd(fmt)| <= p + 1 && out[..p'] == old(out[..p]) + LineEnd(fmt)
  {
    p' := p;
    if fmt {
      p' := Append(out, p', [NEWLINE]);
    }
  }

  // ----- Values -----

  ghost predicate TextsOf(ts: seq<Text>, v: Value, k: nat, depth: nat, fmt: bool) {
    v.Arr? && |ts| == k <= |v.items| && forall j {:trigger ts[j]} :: 0 <= j < k ==> ts[j] == Print(v.items[j], depth + 1, fmt)
  }

  lemma {:induction false} JoinIsPrint(ts: seq<Text>, v: Value, k: nat, depth: nat, fmt: bool)
    requires v.Arr? && TextsOf(ts, v, |v.items|, depth, fmt) && k <= |ts|
    ensures JoinItems(ts, k, fmt) == PrintItems(v, k, depth, fmt)
    decreases |ts| - k
  {
    if k < |ts| {
      JoinIsPrint(ts, v, k + 1, depth, fmt);
    }
  }

  ghost predicate FieldTextsOf(ns: seq<Text>, ts: seq<Text>, v: Value, k: nat, depth: nat, fmt: bool) {
    && v.Obj? && |ts| == |ns| == k <= |v.fields|
    && (forall j {:trigger ts[j]} {:trigger ns[j]} :: 0 <= j < k ==>
          ts[j] == Print(v.fields[j].value, depth, fmt) && ns[j] == Quoted(v.fields[j].name))
  }

  lemma {:induction false} JoinFieldsIsPrint(ns: seq<Text>, ts: seq<Text>, v: Value, k: nat, depth: nat, fmt: bool)
    requires v.Obj? && FieldTextsOf(ns, ts, v, |v.fields|, depth, fmt) && k <= |ts|
    ensures JoinFields(ns, ts, k, depth, fmt) == PrintFields(v, k, depth, fmt)
    decreases |ts| - k
  {
    if k < |ts| {
      JoinFieldsIsPrint(ns, ts, v, k + 1, depth, fmt);
    }
  }

  ghost function KidAt(t: Shape, k: nat): Item? {
    if k < |t.kids| then t.kids[k].item else null
  }

  lemma NextKid(t: Shape, v: Value, k: nat, below: set<Item>)
    requires Linked(t, v, below) && (v.Arr? || v.Obj?) && k < |t.kids|
    ensures |t.kids| == Count(v) && t.kids[k].item.next == KidAt(t, k + 1) && t.item.child == KidAt(t, 0)
  {
  }

  lemma FirstKid(t: Shape, v: Value, below: set<Item>)
    requires Linked(t, v, below) && (v.Arr? || v.Obj?)
    ensures |t.kids| == Count(v) && t.item.child == KidAt(t, 0)
  {
  }

  method CountEntries(item: Item, ghost t: Shape, ghost v: Value, ghost below: set<Item>) returns (n: nat)
    requires Linked(t, v, below) && (v.Arr? || v.Obj?) && t.item == item
    ensures n == |t.kids| == Count(v)
  {
    hide Linked;
    FirstKid(t, v, below);
    n := 0;
    var child := item.child;
    while child != null
      invariant n <= |t.kids| && child == KidAt(t, n) && Linked(t, v, below)
      decreases |t.kids| - n
    {
      NextKid(t, v, n, below);
      n := n + 1;
      child := child.next;
    }
  }

  method StoreEntry(entries: array<array?<Byte>>, i: nat, ret: array<Byte>, ghost ts: seq<Text>, ghost text: Text)
    requires EntriesHold(entries, ts) && |ts| == i < entries.Length && Holds(ret, text)
    requires ret as object != entries as object
    modifies entries
    ensures EntriesHold(entries, ts + [text])
    ensures forall j {:trigger entries[j]} :: 0 <= j < entries.Length ==> entries[j] == if j == i then ret else old(entries[j])
  {
    entries[i] := ret;
  }

  /** The printed names and values of the fields so far. */
  ghost predicate FieldsHold(names: array<array?<Byte>>, entries: array<array?<Byte>>, ns: seq<Text>, ts: seq<Text>)
    reads names, set j | 0 <= j < names.Length && names[j] != null :: names[j]
    reads entries, set j | 0 <= j < entries.Length && entries[j] != null :: entries[j]
  {
    && EntriesHold(names, ns) && EntriesHold(entries, ts) && names != entries && |ns| == |ts|
    && (forall j {:trigger entries[j]} :: 0 <= j < |ts| ==> entries[j] as object? != names as object)
    && (forall j {:trigger names[j]} :: 0 <= j < |ts| ==> names[j] as object? != entries as object)
  }

  method StoreField(names: array<array?<Byte>>, entries: array<array?<Byte>>, i: nat, str: array<Byte>, ret: array<Byte>,
                    ghost ns: seq<Text>, ghost ts: seq<Text>, ghost name: Text, ghost text: Text)
    requires FieldsHold(names, entries, ns, ts) && |ts| == i < entries.Length && i < names.Length
    requires Holds(str, name) && Holds(ret, text)
    requires str as object !in {names, entries} && ret as object !in {names, entries}
    modifies names, entries
    ensures FieldsHold(names, entries, ns + [name], ts + [text])
  {
    names[i] := str;
    entries[i] := ret;
  }

  method PrintValue(item: Item, depth: nat, fmt: bool, ghost t: Shape, ghost v: Value, ghost below: set<Item>) returns (out: array<Byte>)
    requires Linked(t, v, below) && t.item == item && Proper(v)
    ensures fresh(out) && Holds(out, Print(v, depth, fmt))
    decreases v, 2
  {
    match item.kind
    case IsNull => out := StrDup(NULL_TEXT);
    case IsFalse => out := StrDup(FALSE_TEXT);
    case IsTrue => out := StrDup(TRUE_TEXT);
    case IsNumber => out := PrintNumber(item.valueint);
    case IsString => out := PrintStringPtr(item.valuestring);
    case IsArray => out := PrintArray(item, depth, fmt, t, v, below);
    case IsObject => out := PrintObject(item, depth, fmt, t, v, below);
  }

  method PrintArray(item: Item, depth: nat, fmt: bool, ghost t: Shape, ghost v: Value, ghost below: set<Item>) returns (out: array<Byte>)
    requires Linked(t, v, below) && t.item == item && Proper(v) && v.Arr?
    ensures fresh(out) && Holds(out, Print(v, depth, fmt))
    decreases v, 0
  {
    hide Linked;
    hide Proper;
    hide Holds;
    hide EntriesHold;
    hide Print;
    hide Room;
    var n := CountEntries(item, t, v, below);
    FirstKid(t, v, below);
    var child := item.child;
    var entries := new array?<Byte>[n](_ => null);
    ghost var ts: seq<Text> := [];
    var len, i := 5, 0;
    NoEntries(entries, fmt);
    while child != null
      invariant 0 <= i <= n && child == KidAt(t, i) && TextsOf(ts, v, i, depth, fmt) && len == 5 + Room(ts, i, fmt)
      invariant EntriesHold(entries, ts) && Linked(t, v, below)
      decreases n - i
    {
      Element(t, v, i, below);
      NextKid(t, v, i, below);
      var ret := PrintValue(child, depth + 1, fmt, t.kids[i], v.items[i], below);
      ghost var text := Print(v.items[i], depth + 1, fmt);
      StoreEntry(entries, i, ret, ts, text);
      var size := StrLen(ret, text);
      RoomNext(ts, text, fmt);
      len := len + size + 2 + if fmt then 1 else 0;
      ts := ts + [text];
      i := i + 1;
      child := child.next;
    }
    out := ComposeArray(entries, n, len, fmt, ts);
    JoinIsPrint(ts, v, 0, depth, fmt);
    ListHolds(out, v, depth, fmt);
  }

  lemma NoEntries(entries: array<array?<Byte>>, fmt: bool)
    ensures EntriesHold(entries, []) && Room([], 0, fmt) == 0
  {
  }

  lemma Element(t: Shape, v: Value, k: nat, below: set<Item>)
    requires Linked(t, v, below) && Proper(v) && v.Arr? && k < |t.kids|
    ensures k < |v.items| && Linked(t.kids[k], v.items[k], below) && Proper(v.items[k])
  {
    assert LinkedKid(t, k, v.items[k], below);
  }

  lemma ListHolds(out: array<Byte>, v: Value, depth: nat, fmt: bool)
    requires v.Arr? && Proper(v) && Filled(out, [OPEN_LIST] + PrintItems(v, 0, depth, fmt) + [CLOSE_LIST])
    ensures Holds(out, Print(v, depth, fmt))
  {
    PrintNoZero(v, depth, fmt);
  }

  method PrintObject(item: Item, depth0: nat, fmt: bool, ghost t: Shape, ghost v: Value, ghost below: set<Item>) returns (out: array<Byte>)
    requires Linked(t, v, below) && t.item == item && Proper(v) && v.Obj?
    ensures fresh(out) && Holds(out, Print(v, depth0, fmt))
    decreases v, 1
  {
    hide Linked;
    hide Proper;
    hide Holds;
    hide EntriesHold;
    hide FieldsHold;
    hide FieldTextsOf;
    hide Print;
    hide FieldRoom;
    hide Quoted;
    var n := CountEntries(item, t, v, below);
    FirstKid(t, v, below);
    var child := item.child;
    var entries := new array?<Byte>[n](_ => null);
    var names := new array?<Byte>[n](_ => null);
    ghost var ns: seq<Text>, ts: seq<Text> := [], [];
    var depth := depth0 + 1;
    var len, i := 7 + (if fmt then depth else 0), 0;
    NoFieldsHeld(names, entries);
    NoFieldRoom(depth, fmt);
    NoFieldTexts(v, depth, fmt);
    while child != null
      invariant 0 <= i <= n && child == KidAt(t, i) && FieldTextsOf(ns, ts, v, i, depth, fmt) && |ns| == |ts| == i
      invariant len == 7 + (if fmt then depth else 0) + FieldRoom(ns, ts, i, depth, fmt)
      invariant FieldsHold(names, entries, ns, ts) && Linked(t, v, below)
      decreases n - i
    {
      NextKid(t, v, i, below);
      ghost var name, text := Quoted(v.fields[i].name), Print(v.fields[i].value, depth, fmt);
      var size := PrintField(child, i, names, entries, depth, fmt, t, v, below, ns, ts, name, text);
      FieldRoomNext(ns, ts, name, text, depth, fmt);
      len := len + size + 2 + if fmt then 2 + depth else 0;
      FieldTextsNext(ns, ts, v, i, depth, fmt);
      ns, ts := ns + [name], ts + [text];
      i := i + 1;
      child := child.next;
    }
    AllFields(names, entries, ns, ts, v, n, depth, fmt);
    out := ComposeObject(names, entries, n, len, depth, fmt, ns, ts);
    JoinFieldsIsPrint(ns, ts, v, 0, depth, fmt);
    ObjectHolds(out, v, depth0, fmt);
  }

  // Prints name and value of one field; returns the length of both.
  method PrintField(child: Item, i: nat, names: array<array?<Byte>>, entries: array<array?<Byte>>, depth: nat, fmt: bool,
                    ghost t: Shape, ghost v: Value, ghost below: set<Item>, ghost ns: seq<Text>, ghost ts: seq<Text>, ghost name: Text, ghost text: Text)
    returns (size: nat)
    requires Linked(t, v, below) && Proper(v) && v.Obj? && i < |v.fields| && child == KidAt(t, i)
    requires FieldsHold(names, entries, ns, ts) && |ts| == |ns| == i < entries.Length && i < names.Length
    requires name == Quoted(v.fields[i].name) && text == Print(v.fields[i].value, depth, fmt)
    modifies names, entries
    ensures FieldsHold(names, entries, ns + [name], ts + [text]) && size == |name| + |text|
    decreases v, 0
  {
    hide Linked;
    hide Proper;
    hide Holds;
    hide EntriesHold;
    hide FieldsHold;
    hide Print;
    hide Quoted;
    AsMany(t, v, below);
    FieldElement(t, v, i, below);
    var str := PrintStringPtr(child.name);
    var ret := PrintValue(child, depth, fmt, t.kids[i], v.fields[i].value, below);
    var s1 := StrLen(str, name);
    var s2 := StrLen(ret, text);
    StoreField(names, entries, i, str, ret, ns, ts, name, text);
    size := s1 + s2;
  }

  lemma AsMany(t: Shape, v: Value, below: set<Item>)
    requires Linked(t, v, below) && v.Obj?
    ensures |t.kids| == |v.fields|
  {
  }

  lemma NoFieldsHeld(names: array<array?<Byte>>, entries: array<array?<Byte>>)
    requires names != entries
    ensures FieldsHold(names, entries, [], [])
  {
  }

  lemma AllFields(names: array<array?<Byte>>, entries: array<array?<Byte>>, ns: seq<Text>, ts: seq<Text>, v: Value, n: nat, depth: nat, fmt: bool)
    requires FieldsHold(names, entries, ns, ts) && FieldTextsOf(ns, ts, v, n, depth, fmt)
    ensures EntriesHold(names, ns) && EntriesHold(entries, ts) && |ns| == |ts| == n
  {
  }

  lemma FieldTextsNext(ns: seq<Text>, ts: seq<Text>, v: Value, k: nat, depth: nat, fmt: bool)
    requires FieldTextsOf(ns, ts, v, k, depth, fmt) && k < |v.fields|
    ensures FieldTextsOf(ns + [Quoted(v.fields[k].name)], ts + [Print(v.fields[k].value, depth, fmt)], v, k + 1, depth, fmt)
  {
  }

  lemma NoFieldTexts(v: Value, depth: nat, fmt: bool)
    requires v.Obj?
    ensures FieldTextsOf([], [], v, 0, depth, fmt)
  {
  }

  lemma NoFieldRoom(depth: nat, fmt: bool)
    ensures FieldRoom([], [], 0, depth, fmt) == 0
  {
  }

  lemma FieldElement(t: Shape, v: Value, k: nat, below: set<Item>)
    requires Linked(t, v, below) && Proper(v) && v.Obj? && k < |t.kids|
    ensures k < |v.fields| && Linked(t.kids[k], v.fields[k].value, below) && Proper(v.fields[k].value)
    ensures t.kids[k].item.name == v.fields[k].name && 0 !in v.fields[k].name
  {
    assert LinkedKid(t, k, v.fields[k].value, below);
  }

  lemma ObjectHolds(out: array<Byte>, v: Value, depth: nat, fmt: bool)
    requires v.Obj? && Proper(v)
    requires Filled(out, [OPEN_OBJECT] + LineEnd(fmt) + PrintFields(v, 0, depth + 1, fmt) + Tabs(depth, fmt) + [CLOSE_OBJECT])
    ensures Holds(out, Print(v, depth, fmt))
  {
    PrintNoZero(v, depth, fmt);
  }
}
