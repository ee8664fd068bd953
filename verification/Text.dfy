/** Strings: vectors of characters whose last element is the terminator.  The source of an edit may be part of the
    string that is edited. */
module Texts {
  import opened Vectors

  /** The characters given to an edit: from elsewhere, or a stretch of the string itself. */
  datatype Source<T> = Elsewhere(chars: seq<T>) | Within(pos: nat, n: nat)

  ghost predicate IsText<T(0)>(v: Vector<T>, nul: T)
    reads v, v.buf
  {
    v.Valid() && v.size > 0 && v.buf[v.size - 1] == nul
  }

  /** The characters in front of the terminator. */
  ghost function Text<T(0)>(v: Vector<T>): (s: seq<T>)
    requires v.Valid() && v.size > 0
    reads v, v.buf
    ensures |s| == v.size - 1
  {
    v.Items()[..v.size - 1]
  }

  /** A source in the string may reach over its terminator. */
  ghost predicate Readable<T>(s: seq<T>, src: Source<T>) {
    src.Within? ==> src.pos + src.n <= |s| + 1
  }

  ghost function Chars<T>(s: seq<T>, nul: T, src: Source<T>): (d: seq<T>)
    requires Readable(s, src)
    ensures |d| == Length(src)
  {
    match src
    case Elsewhere(chars) => chars
    case Within(pos, n) => (s + [nul])[pos..pos + n]
  }

  ghost function Length<T>(src: Source<T>): nat {
    if src.Within? then src.n else |src.chars|
  }

  /** `s` with `data` in place of at most `n` characters from index `i`. */
  ghost function Replaced<T>(s: seq<T>, i: nat, n: nat, data: seq<T>): seq<T>
    requires i <= |s|
  {
    s[..i] + data + s[if i + n <= |s| then i + n else |s|..]
  }

  // ----- Sources that reach over the terminator -----

  /** Having taken as many characters as it replaces, the edit is to go on with the terminator alone.  It does not take this
      for a part of the string: what it then reads is the place of the terminator in the buffer that it has shifted already,
      or in the buffer that it has given back. */
  ghost predicate GoesOnAtEnd<T>(s: seq<T>, len: nat, src: Source<T>) {
    src.Within? && src.n == len + 1 && src.pos + len == |s|
  }

  /** What an edit at `idx` in place of `len` characters writes.  `stale` is what a buffer that was given back reads as. */
  ghost function Written<T>(s: seq<T>, nul: T, idx: nat, len: nat, src: Source<T>, capacity: nat, stale: T): (d: seq<T>)
    requires Readable(s, src) && idx + len <= |s|
    ensures |d| == Length(src)
  {
    if GoesOnAtEnd(s, len, src) && |s| + 1 < capacity then
      Chars(s, nul, src)[..len] + [if idx + len == |s| then nul else s[|s| - 1]]
    else if GoesOnAtEnd(s, len, src) && src.pos == |s| then [stale]
    else Chars(s, nul, src)
  }

  /** When an edit writes the characters of its source: unless it goes on at the terminator. Then it has to be at the end of
      the string, or the last character has to be a terminator too; and without room in the buffer, the source has to begin
      in front of the terminator. */
  ghost predicate EditRight<T>(s: seq<T>, nul: T, idx: nat, len: nat, src: Source<T>, capacity: nat)
    requires idx + len <= |s|
  {
    GoesOnAtEnd(s, len, src) ==>
      if |s| + 1 < capacity then idx + len == |s| || s[|s| - 1] == nul else src.pos < |s|
  }

  lemma RightIsWritten<T>(s: seq<T>, nul: T, idx: nat, len: nat, src: Source<T>, capacity: nat, stale: T)
    requires Readable(s, src) && idx + len <= |s| && EditRight(s, nul, idx, len, src, capacity)
    ensures Written(s, nul, idx, len, src, capacity, stale) == Chars(s, nul, src)
  {
    if GoesOnAtEnd(s, len, src) && |s| + 1 < capacity {
      var d := Chars(s, nul, src);
      assert d == d[..len] + [d[len]];
    }
  }

  /** The condition is exact: the edit is the one that was asked for, whatever a freed buffer reads as, if and only if it is
      right. */
  lemma RightExactly<T(!new)>(s: seq<T>, nul: T, idx: nat, len: nat, src: Source<T>, capacity: nat, other: T)
    requires Readable(s, src) && idx + len <= |s| && other != nul
    ensures EditRight(s, nul, idx, len, src, capacity) <==>
            forall stale :: Replaced(s, idx, len, Written(s, nul, idx, len, src, capacity, stale))
                            == Replaced(s, idx, len, Chars(s, nul, src))
  {
    if EditRight(s, nul, idx, len, src, capacity) {
      forall stale
        ensures Written(s, nul, idx, len, src, capacity, stale) == Chars(s, nul, src)
      {
        RightIsWritten(s, nul, idx, len, src, capacity, stale);
      }
    } else {
      var d, w := Chars(s, nul, src), Written(s, nul, idx, len, src, capacity, other);
      assert d[len] == nul && w[len] != nul;
      assert Replaced(s, idx, len, d)[idx + len] == nul;
      assert Replaced(s, idx, len, w)[idx + len] != nul;
    }
  }

  /** Replacing the first character of "abc" by the last one and the terminator writes the last one twice. */
  lemma EndIsLost(stale: char)
    ensures Replaced("abc", 0, 1, Written("abc", '\0', 0, 1, Within(2, 2), 5, stale)) == "ccbc"
    ensures Replaced("abc", 0, 1, Chars("abc", '\0', Within(2, 2))) == "c\0bc"
    ensures !EditRight("abc", '\0', 0, 1, Within(2, 2), 5)
  {
    assert ("abc" + ['\0'])[2..4] == "c\0";
    assert "abc"[..0] == "" && "abc"[1..] == "bc" && "c\0"[..1] == "c";
  }

  // ----- Edits of the vector seen as edits of the string -----

  lemma InsertedText<T>(s: seq<T>, i: nat, data: seq<T>)
    requires i < |s|
    ensures var r := Inserted(s, i, data);
            r[|r| - 1] == s[|s| - 1] && r[..|r| - 1] == Inserted(s[..|s| - 1], i, data)
  {
    var r := Inserted(s, i, data);
    var t := Inserted(s[..|s| - 1], i, data);
    assert forall k :: 0 <= k < |t| ==> r[k] == t[k];
    assert r[..|r| - 1] == t;
  }

  lemma ErasedText<T>(s: seq<T>, i: nat, n: nat)
    requires i + n < |s|
    ensures var r := Erased(s, i, n);
            r[|r| - 1] == s[|s| - 1] && r[..|r| - 1] == Erased(s[..|s| - 1], i, n)
  {
  }

  lemma CharsOf<T(0)>(v: Vector<T>, nul: T, p: nat, n: nat)
    requires IsText(v, nul) && p + n <= v.size
    ensures v.Items() == Text(v) + [nul]
    ensures v.buf[p..p + n] == (Text(v) + [nul])[p..p + n]
  {
    Part(v.buf[..], 0, v.size, p, p + n);
    assert v.buf[..][..v.size] == v.Items();
  }

  /** `tmp` says whether there is memory for a copy of the source, `room` whether there is for a larger buffer, and `stale`
      what a buffer that was given back reads as. */
  method InsertLen<T(0)>(v: Vector<T>, nul: T, idx: nat, src: Source<T>, tmp: bool, room: bool, stale: T) returns (ok: bool)
    requires IsText(v, nul) && idx <= |Text(v)| && Readable(Text(v), src)
    modifies v, v.buf
    ensures IsText(v, nul) && (v.buf == old(v.buf) || fresh(v.buf))
    ensures Text(v) == if ok then Inserted(old(Text(v)), idx, Written(old(Text(v)), nul, idx, 0, src, old(v.buf.Length), stale))
                       else old(Text(v))
    ensures ok && EditRight(old(Text(v)), nul, idx, 0, src, old(v.buf.Length)) ==>
              Text(v) == Inserted(old(Text(v)), idx, Chars(old(Text(v)), nul, src))
    ensures ok <==> old(v.size) + Length(src) <= old(v.buf.Length)
                    || (room && (src.Within? && src.pos < |old(Text(v))| ==> tmp))
    ensures old(v.size) + Length(src) <= old(v.buf.Length) ==> v.buf == old(v.buf)
  {
    hide Inserted, Written, EditRight, Chars;
    ghost var s, w := Text(v), Written(Text(v), nul, idx, 0, src, v.buf.Length, stale);
    if EditRight(s, nul, idx, 0, src, v.buf.Length) {
      RightIsWritten(s, nul, idx, 0, src, v.buf.Length, stale);
    }
    InsertedText(v.Items(), idx, w);
    ok := InsertItems(v, nul, idx, src, tmp, room, stale);
  }

  /** The insertion, seen in the vector. */
  method InsertItems<T(0)>(v: Vector<T>, nul: T, idx: nat, src: Source<T>, tmp: bool, room: bool, stale: T) returns (ok: bool)
    requires IsText(v, nul) && idx <= |Text(v)| && Readable(Text(v), src)
    modifies v, v.buf
    ensures v.Valid() && (v.buf == old(v.buf) || fresh(v.buf))
    ensures v.Items() == if ok then Inserted(old(v.Items()), idx, Written(old(Text(v)), nul, idx, 0, src, old(v.buf.Length), stale))
                         else old(v.Items())
    ensures ok <==> old(v.size) + Length(src) <= old(v.buf.Length)
                    || (room && (src.Within? && src.pos < |old(Text(v))| ==> tmp))
    ensures old(v.size) + Length(src) <= old(v.buf.Length) ==> v.buf == old(v.buf)
  {
    hide Inserted, Written;
    WrittenAll(Text(v), nul, idx, src, v.buf.Length, stale);
    match src
    case Elsewhere(chars) =>
      ok := v.InsertArray(idx, chars, room);
    case Within(pos, n) =>
      CharsOf(v, nul, pos, n);
      if pos >= v.size - 1 {
        ok := InsertEnd(v, nul, idx, n, room, stale);
      } else {
        ok := InsertWithin(v, idx, pos, n, tmp, room);
      }
  }

  /** The source starts in the string. */
  method InsertWithin<T(0)>(v: Vector<T>, idx: nat, pos: nat, n: nat, tmp: bool, room: bool) returns (ok: bool)
    requires v.Valid() && idx <= v.size && pos + n <= v.size
    modifies v, v.buf
    ensures v.Valid() && (v.buf == old(v.buf) || fresh(v.buf))
    ensures v.Items() == if ok then Inserted(old(v.Items()), idx, old(v.Items())[pos..pos + n]) else old(v.Items())
    ensures ok <==> old(v.size) + n <= old(v.buf.Length) || (room && tmp)
    ensures old(v.size) + n <= old(v.buf.Length) ==> v.buf == old(v.buf)
  {
    hide Inserted, Gapped;
    if v.buf.Length < v.size + n {
      if !tmp {
        return false;
      }
      var copy := v.buf[pos..pos + n];
      assert copy == v.Items()[pos..pos + n];
      ok := v.InsertArray(idx, copy, room);
    } else {
      ghost var items := v.Items();
      ok := v.InsertGap(idx, n, room);
      v.FillFromSelf(idx, pos, n, items);
    }
  }

  lemma WrittenAll<T>(s: seq<T>, nul: T, idx: nat, src: Source<T>, capacity: nat, stale: T)
    requires Readable(s, src) && idx <= |s|
    ensures var w := Written(s, nul, idx, 0, src, capacity, stale);
            if src.Within? && src.pos >= |s| then w == EndWritten(s, nul, idx, src.n, capacity, stale)
            else w == Chars(s, nul, src)
  {
  }

  /** What is written when the source is the terminator, or nothing at its place. */
  ghost function EndWritten<T>(s: seq<T>, nul: T, idx: nat, n: nat, capacity: nat, stale: T): seq<T>
    requires idx <= |s|
  {
    if n == 0 then [] else [if |s| + 1 < capacity then if idx == |s| then nul else s[|s| - 1] else stale]
  }

  /** The source starts at the terminator, which does not count as part of the string: it is read where it was. */
  method InsertEnd<T(0)>(v: Vector<T>, nul: T, idx: nat, n: nat, room: bool, stale: T) returns (ok: bool)
    requires IsText(v, nul) && idx <= |Text(v)| && n <= 1
    modifies v, v.buf
    ensures v.Valid() && (v.buf == old(v.buf) || fresh(v.buf))
    ensures v.Items() == if ok then Inserted(old(v.Items()), idx, EndWritten(old(Text(v)), nul, idx, n, old(v.buf.Length), stale))
                         else old(v.Items())
    ensures ok <==> old(v.size) + n <= old(v.buf.Length) || room
    ensures old(v.size) + n <= old(v.buf.Length) ==> v.buf == old(v.buf)
  {
    hide Inserted, Gapped;
    var end, fits := v.size - 1, v.size + n <= v.buf.Length;
    ghost var items, s := v.Items(), Text(v);
    ok := v.InsertGap(idx, n, room);
    if ok {
      GapSize(items, v.Items(), idx, n);
      GapIs(items, v.Items(), idx, n);
      ghost var r := v.Items();
      assert r[end] == v.buf[end];
      var data := if n == 0 then [] else [if fits then v.buf[end] else stale];
      assert idx < end ==> items[end - 1] == s[end - 1];
      assert data == EndWritten(s, nul, idx, n, old(v.buf.Length), stale);
      v.FillIn(idx, data);
      FillGap(items, r, v.Items(), idx, data);
    }
  }

  /** Erases at most `len` characters. */
  method Erase<T(0)>(v: Vector<T>, nul: T, idx: nat, len: nat)
    requires IsText(v, nul) && idx < |Text(v)|
    modifies v, v.buf
    ensures IsText(v, nul) && v.buf == old(v.buf)
    ensures Text(v) == Replaced(old(Text(v)), idx, len, [])
  {
    var size := v.size - 1;
    var n := if len > size - idx then size - idx else len;
    ErasedText(v.Items(), idx, n);
    v.Erase(idx, n);
  }

  // ----- Replacing -----

  /** Overwriting `len` characters and inserting the others behind them. */
  lemma OverAndIn<T>(s: seq<T>, i: nat, n: nat, data: seq<T>)
    requires i + n <= |s| && n <= |data|
    ensures Inserted(s[..i] + data[..n] + s[i + n..], i + n, data[n..]) == Replaced(s, i, n, data)
  {
    assert data == data[..n] + data[n..];
    var t := s[..i] + data[..n] + s[i + n..];
    assert t[..i + n] == s[..i] + data[..n];
    assert t[i + n..] == s[i + n..];
  }

  /** The other way round: inserting first. */
  lemma InAndOver<T>(s: seq<T>, i: nat, n: nat, data: seq<T>)
    requires i + n <= |s| && n <= |data|
    ensures var t := Inserted(s, i + n, data[n..]); t[..i] + data[..n] + t[i + n..] == Replaced(s, i, n, data)
  {
    var t := Inserted(s, i + n, data[n..]);
    assert t[..i] == s[..i];
    assert t[i + n..] == data[n..] + s[i + n..];
    assert data == data[..n] + data[n..];
  }

  /** Overwriting with few characters and erasing the rest. */
  lemma OverAndOut<T>(s: seq<T>, i: nat, n: nat, data: seq<T>)
    requires i + n <= |s| && |data| <= n
    ensures var t := s[..i] + data + s[i + |data|..];
            && Replaced(t, i + |data|, n - |data|, []) == Replaced(s, i, n, data)
            && (|data| == n ==> t == Replaced(s, i, n, data))
  {
    var t := s[..i] + data + s[i + |data|..];
    assert t[..i + |data|] == s[..i] + data;
    assert t[i + n..] == s[i + n..];
  }

  /** Overwrites characters of the string. */
  method Overwrite<T(0)>(v: Vector<T>, nul: T, idx: nat, data: seq<T>)
    requires IsText(v, nul) && idx + |data| <= |Text(v)|
    modifies v.buf
    ensures IsText(v, nul) && v.size == old(v.size) && v.buf == old(v.buf)
    ensures Text(v) == old(Text(v)[..idx]) + data + old(Text(v)[idx + |data|..])
  {
    ghost var b := v.buf[..];
    OverPrefix(b, idx, data, v.size - 1);
    Fill(v.buf, idx, data);
    assert v.buf[..][..v.size - 1] == Text(v);
    assert b[..v.size - 1] == old(Text(v));
  }

  /** `memmove` to characters of the string, from these or the terminator. */
  method MoveChars<T(0)>(v: Vector<T>, nul: T, to: nat, from: nat, n: nat)
    requires IsText(v, nul) && to + n <= |Text(v)| && from + n <= v.size
    modifies v.buf
    ensures IsText(v, nul) && v.size == old(v.size) && v.buf == old(v.buf)
    ensures Text(v) == old(Text(v))[..to] + (old(Text(v)) + [nul])[from..from + n] + old(Text(v))[to + n..]
  {
    hide Copied;
    ghost var s, b := Text(v), v.Items();
    CharsOf(v, nul, from, n);
    v.MoveIn(to, from, n);
    Overwritten(s, nul, to, from, n);
    assert Text(v) == v.Items()[..|s|];
  }

  lemma Overwritten<T>(s: seq<T>, nul: T, to: nat, from: nat, n: nat)
    requires to + n <= |s| && from + n <= |s| + 1
    ensures var r := Copied(s + [nul], to, from, n);
            r[..|s|] == s[..to] + (s + [nul])[from..from + n] + s[to + n..] && r[|s|] == nul
  {
    var r, data := Copied(s + [nul], to, from, n), (s + [nul])[from..from + n];
    CopiedIs(s + [nul], to, from, n);
    var t := s[..to] + data + s[to + n..];
    assert forall k :: 0 <= k < |s| ==> r[..|s|][k] == t[k];
  }

  function Least(a: nat, b: nat): nat {
    if b < a then b else a
  }

  /** Replaces at most `n0` characters from index `idx`. */
  method ReplaceLen<T(0)>(v: Vector<T>, nul: T, idx: nat, n0: nat, src: Source<T>, tmp: bool, room: bool, stale: T)
    returns (ok: bool)
    requires IsText(v, nul) && idx <= |Text(v)| && Readable(Text(v), src)
    modifies v, v.buf
    ensures IsText(v, nul) && (v.buf == old(v.buf) || fresh(v.buf))
    ensures var s, c := old(Text(v)), old(v.buf.Length); var len := Least(n0, |s| - idx);
            && Text(v) == (if ok then Replaced(s, idx, n0, Written(s, nul, idx, len, src, c, stale)) else s)
            && (ok && EditRight(s, nul, idx, len, src, c) ==> Text(v) == Replaced(s, idx, n0, Chars(s, nul, src)))
    ensures ok <==> Length(src) <= Least(n0, |old(Text(v))| - idx)
                    || old(v.size) + Length(src) - Least(n0, |old(Text(v))| - idx) <= old(v.buf.Length)
                    || (room && (src.Within? && src.pos < |old(Text(v))| ==> tmp))
  {
    hide Inserted, Replaced, Copied, Written, EditRight;
    var size := v.size - 1;
    var len := if n0 > size - idx then size - idx else n0;
    ghost var s, w := Text(v), Written(Text(v), nul, idx, len, src, v.buf.Length, stale);
    if EditRight(s, nul, idx, len, src, v.buf.Length) {
      RightIsWritten(s, nul, idx, len, src, v.buf.Length, stale);
    }
    Clipped(s, idx, n0, w);
    ok := ReplaceAt(v, nul, idx, len, src, tmp, room, stale);
  }

  /** Replaces exactly `len` characters. */
  method ReplaceAt<T(0)>(v: Vector<T>, nul: T, idx: nat, len: nat, src: Source<T>, tmp: bool, room: bool, stale: T)
    returns (ok: bool)
    requires IsText(v, nul) && idx + len <= |Text(v)| && Readable(Text(v), src)
    modifies v, v.buf
    ensures IsText(v, nul) && (v.buf == old(v.buf) || fresh(v.buf))
    ensures Text(v) == if ok then Replaced(old(Text(v)), idx, len, Written(old(Text(v)), nul, idx, len, src, old(v.buf.Length), stale))
                       else old(Text(v))
    ensures ok <==> Length(src) <= len || old(v.size) + Length(src) - len <= old(v.buf.Length)
                    || (room && (src.Within? && src.pos < |old(Text(v))| ==> tmp))
  {
    hide Inserted, Replaced, Copied, Written;
    ghost var s := Text(v);
    WrittenFew(s, nul, idx, len, src, v.buf.Length, stale);
    match src
    case Within(pos, n) =>
      CharsOf(v, nul, pos, n);
      if pos < v.size - 1 {
        ok := ReplaceWithin(v, nul, idx, len, pos, n, tmp, room, stale);
      } else if n <= len {
        ReplaceShorter(v, nul, idx, len, v.buf[pos..pos + n]);
        ok := true;
      } else {
        ok := ReplaceByEnd(v, nul, idx, pos, room, stale);
      }
    case Elsewhere(chars) =>
      if |chars| <= len {
        ReplaceShorter(v, nul, idx, len, chars);
        ok := true;
      } else {
        ok := ReplaceLonger(v, nul, idx, len, chars, room);
      }
  }

  /** The source starts in the string. */
  method ReplaceWithin<T(0)>(v: Vector<T>, nul: T, idx: nat, len: nat, pos: nat, n: nat, tmp: bool, room: bool, stale: T)
    returns (ok: bool)
    requires IsText(v, nul) && idx + len <= |Text(v)| && pos < |Text(v)| && pos + n <= v.size
    modifies v, v.buf
    ensures IsText(v, nul) && (v.buf == old(v.buf) || fresh(v.buf))
    ensures Text(v) == if ok then Replaced(old(Text(v)), idx, len, Written(old(Text(v)), nul, idx, len, Within(pos, n), old(v.buf.Length), stale))
                       else old(Text(v))
    ensures ok <==> n <= len || old(v.size) + n - len <= old(v.buf.Length) || (room && tmp)
  {
    hide Inserted, Replaced, Copied, Written;
    ghost var s, w := Text(v), Written(Text(v), nul, idx, len, Within(pos, n), v.buf.Length, stale);
    CharsOf(v, nul, pos, n);
    WrittenFew(s, nul, idx, len, Within(pos, n), v.buf.Length, stale);
    if n <= len {
      OverAndOut(s, idx, len, w);
      MoveChars(v, nul, idx, pos, n);
      if n != len {
        Erase(v, nul, idx + n, len - n);
      }
      ok := true;
    } else if v.buf.Length < v.size + (n - len) {
      if !tmp {
        return false;
      }
      var copy := v.buf[pos..pos + n];
      ok := ReplaceLonger(v, nul, idx, len, copy, room);
    } else if idx <= pos {
      ReplaceFromRight(v, nul, idx, len, pos, n, stale);
      ok := true;
    } else {
      ReplaceFromLeft(v, nul, idx, len, pos, n);
      ok := true;
    }
  }

  lemma WrittenFew<T>(s: seq<T>, nul: T, idx: nat, len: nat, src: Source<T>, capacity: nat, stale: T)
    requires Readable(s, src) && idx + len <= |s|
    ensures src.Elsewhere? || Length(src) <= len || (src.pos < |s| && (capacity <= |s| + (src.n - len) || src.pos < idx)) ==>
              Written(s, nul, idx, len, src, capacity, stale) == Chars(s, nul, src)
  {
  }

  /** A replacement that is not longer. */
  method ReplaceShorter<T(0)>(v: Vector<T>, nul: T, idx: nat, len: nat, chars: seq<T>)
    requires IsText(v, nul) && idx + len <= |Text(v)| && |chars| <= len
    modifies v, v.buf
    ensures IsText(v, nul) && v.buf == old(v.buf)
    ensures Text(v) == Replaced(old(Text(v)), idx, len, chars)
  {
    hide Replaced;
    OverAndOut(Text(v), idx, len, chars);
    Overwrite(v, nul, idx, chars);
    if |chars| != len {
      Erase(v, nul, idx + |chars|, len - |chars|);
    }
  }

  /** The source is the terminator alone, and nothing is replaced. */
  method ReplaceByEnd<T(0)>(v: Vector<T>, nul: T, idx: nat, pos: nat, room: bool, stale: T) returns (ok: bool)
    requires IsText(v, nul) && idx <= |Text(v)| && pos == |Text(v)|
    modifies v, v.buf
    ensures IsText(v, nul) && (v.buf == old(v.buf) || fresh(v.buf))
    ensures Text(v) == if ok then Replaced(old(Text(v)), idx, 0, Written(old(Text(v)), nul, idx, 0, Within(pos, 1), old(v.buf.Length), stale))
                       else old(Text(v))
    ensures ok <==> old(v.size) + 1 <= old(v.buf.Length) || room
  {
    var fits := v.size + 1 <= v.buf.Length;
    ok := v.Expand(v.size + 1, room);
    if ok {
      var inserted := InsertLen(v, nul, idx, if fits then Within(pos, 1) else Elsewhere([stale]), false, false, stale);
    }
  }

  lemma Clipped<T>(s: seq<T>, i: nat, n: nat, data: seq<T>)
    requires i <= |s|
    ensures Replaced(s, i, n, data) == Replaced(s, i, if n > |s| - i then |s| - i else n, data)
  {
  }

  /** A longer replacement that is not part of the string: the buffer is extended first. */
  method ReplaceLonger<T(0)>(v: Vector<T>, nul: T, idx: nat, len: nat, chars: seq<T>, room: bool) returns (ok: bool)
    requires IsText(v, nul) && idx + len <= |Text(v)| && len < |chars|
    modifies v, v.buf
    ensures IsText(v, nul) && (v.buf == old(v.buf) || fresh(v.buf))
    ensures Text(v) == if ok then Replaced(old(Text(v)), idx, len, chars) else old(Text(v))
    ensures ok <==> old(v.size) + |chars| - len <= old(v.buf.Length) || room
  {
    hide Inserted, Replaced;
    OverAndIn(Text(v), idx, len, chars);
    ok := v.Expand(v.size + (|chars| - len), room);
    if ok {
      Overwrite(v, nul, idx, chars[..len]);
      var inserted := InsertLen(v, nul, idx + len, Elsewhere(chars[len..]), false, false, nul);
    }
  }

  /** The source starts at or behind the place of the edit, and there is room. */
  method ReplaceFromRight<T(0)>(v: Vector<T>, nul: T, idx: nat, len: nat, pos: nat, n: nat, stale: T)
    requires IsText(v, nul) && idx + len <= |Text(v)| && len < n && idx <= pos < |Text(v)| && pos + n <= v.size
    requires v.size + (n - len) <= v.buf.Length
    modifies v, v.buf
    ensures IsText(v, nul) && v.buf == old(v.buf)
    ensures Text(v) == Replaced(old(Text(v)), idx, len, Written(old(Text(v)), nul, idx, len, Within(pos, n), v.buf.Length, stale))
  {
    hide Inserted, Replaced, Copied, Written;
    ghost var s := Text(v);
    ghost var w := Written(s, nul, idx, len, Within(pos, n), v.buf.Length, stale);
    OverAndIn(s, idx, len, w);
    RestKept(s, nul, idx, len, pos, n, v.buf.Length, stale);
    MoveChars(v, nul, idx, pos, len);
    var inserted := InsertLen(v, nul, idx + len, Within(pos + len, n - len), false, false, stale);
  }

  /** Moving the first part of the source does not touch its second part. */
  lemma RestKept<T>(s: seq<T>, nul: T, idx: nat, len: nat, pos: nat, n: nat, capacity: nat, stale: T)
    requires idx <= pos < |s| && len < n && pos + n <= |s| + 1 && idx + len <= |s| && |s| + 1 + (n - len) <= capacity
    ensures var w := Written(s, nul, idx, len, Within(pos, n), capacity, stale);
            var t := s[..idx] + (s + [nul])[pos..pos + len] + s[idx + len..];
            && |t| == |s| && w[..len] == (s + [nul])[pos..pos + len]
            && w[len..] == Written(t, nul, idx + len, 0, Within(pos + len, n - len), capacity, stale)
  {
    hide Written;
    var head, tail := (s + [nul])[pos..pos + len], s[idx + len..];
    var t := s[..idx] + head + tail;
    assert |t| == |s| && t[idx + len..] == tail;
    Part(s + [nul], pos, pos + n, 0, len);
    Part(s + [nul], pos, pos + n, len, n);
    WrittenParts(s, nul, idx, len, pos, n, capacity, stale);
    WrittenParts(t, nul, idx + len, 0, pos + len, n - len, capacity, stale);
    if pos + len == |s| {
      assert idx + len < |s| ==> t[idx + len..][|s| - 1 - idx - len] == t[|s| - 1];
    } else {
      RestSame(s, t, nul, idx + len, pos + len, n - len);
    }
  }

  /** What is written in place of `len` characters, and what behind them. */
  lemma WrittenParts<T>(s: seq<T>, nul: T, idx: nat, len: nat, pos: nat, n: nat, capacity: nat, stale: T)
    requires idx + len <= |s| && len < n && pos + n <= |s| + 1 && |s| + 1 + (n - len) <= capacity
    ensures var d, w := (s + [nul])[pos..pos + n], Written(s, nul, idx, len, Within(pos, n), capacity, stale);
            && w[..len] == d[..len]
            && w[len..] == if pos + len == |s| then [if idx + len == |s| then nul else s[|s| - 1]] else d[len..]
  {
  }

  lemma RestSame<T>(s: seq<T>, t: seq<T>, nul: T, i: nat, from: nat, n: nat)
    requires i <= from && i <= |s| && from + n <= |s| + 1 == |t| + 1 && t[i..] == s[i..]
    ensures (t + [nul])[from..from + n] == (s + [nul])[from..from + n]
  {
    forall k | from <= k < |s|
      ensures t[k] == s[k]
    {
      assert t[i..][k - i] == s[i..][k - i];
    }
    var l, r := (t + [nul])[from..from + n], (s + [nul])[from..from + n];
    assert forall k :: 0 <= k < n ==> l[k] == r[k];
  }

  /** The source starts in front of the place of the edit, and there is room. */
  method ReplaceFromLeft<T(0)>(v: Vector<T>, nul: T, idx: nat, len: nat, pos: nat, n: nat)
    requires IsText(v, nul) && idx + len <= |Text(v)| && len < n && pos < idx && pos + n <= v.size
    requires v.size + (n - len) <= v.buf.Length
    modifies v, v.buf
    ensures IsText(v, nul) && v.buf == old(v.buf)
    ensures Text(v) == Replaced(old(Text(v)), idx, len, (old(Text(v)) + [nul])[pos..pos + n])
  {
    hide Inserted, Replaced, Copied, Written, EditRight, Chars;
    ghost var s := Text(v);
    ghost var t := Inserted(s, idx + len, (s + [nul])[pos + len..pos + len + (n - len)]);
    WrittenInner(s, nul, idx + len, pos + len, n - len, v.buf.Length, nul);
    LeftDone(s, nul, idx, len, pos, n);
    var inserted := InsertLen(v, nul, idx + len, Within(pos + len, n - len), false, false, nul);
    assert Text(v) == t && |t| == |s| + (n - len);
    MoveChars(v, nul, idx, pos, len);
  }

  lemma WrittenInner<T>(s: seq<T>, nul: T, idx: nat, pos: nat, n: nat, capacity: nat, stale: T)
    requires idx <= |s| && pos < |s| && pos + n <= |s| + 1
    ensures Written(s, nul, idx, 0, Within(pos, n), capacity, stale) == (s + [nul])[pos..pos + n]
  {
  }

  /** Inserting the second part of the source does not touch its first part. */
  lemma LeftDone<T>(s: seq<T>, nul: T, idx: nat, len: nat, pos: nat, n: nat)
    requires pos < idx && len < n && pos + n <= |s| + 1 && idx + len <= |s|
    ensures var t := Inserted(s, idx + len, (s + [nul])[pos + len..pos + len + (n - len)]);
            t[..idx] + (t + [nul])[pos..pos + len] + t[idx + len..] == Replaced(s, idx, len, (s + [nul])[pos..pos + n])
  {
    hide Inserted, Replaced;
    var data := (s + [nul])[pos..pos + n];
    InAndOver(s, idx, len, data);
    Part(s + [nul], pos, pos + n, 0, len);
    Part(s + [nul], pos, pos + n, len, n);
    var t := Inserted(s, idx + len, data[len..]);
    FrontSame(s, nul, idx + len, data[len..], pos, len);
  }

  lemma FrontSame<T>(s: seq<T>, nul: T, i: nat, data: seq<T>, from: nat, n: nat)
    requires from + n <= i <= |s|
    ensures (Inserted(s, i, data) + [nul])[from..from + n] == (s + [nul])[from..from + n]
  {
    var l, r := (Inserted(s, i, data) + [nul])[from..from + n], (s + [nul])[from..from + n];
    assert forall k :: 0 <= k < n ==> l[k] == r[k];
  }

  // ----- Resizing and searching -----

  /** Shortens the string to `n` characters, or fills it up with `c`. */
  method Resize<T(0)>(v: Vector<T>, nul: T, n: nat, c: T, room: bool) returns (ok: bool)
    requires IsText(v, nul)
    modifies v, v.buf
    ensures IsText(v, nul) && (v.buf == old(v.buf) || fresh(v.buf))
    ensures ok <==> n < old(v.buf.Length) || room
    ensures !ok ==> Text(v) == old(Text(v))
    ensures ok ==> |Text(v)| == n
    ensures ok ==> forall k :: 0 <= k < n ==> Text(v)[k] == if k < |old(Text(v))| then old(Text(v))[k] else c
  {
    var num := v.size - 1;
    ghost var s := v.Items();
    if v.size >= n + 1 {
      v.size := n + 1;
      ok := true;
    } else {
      ok := Lengthen(v, n + 1, c, room);
    }
    if ok {
      if num < v.size {
        v.buf[num] := c;
      }
      v.buf[v.size - 1] := nul;
      assert forall k :: 0 <= k < n ==> v.buf[k] == if k < num then s[k] else c;
      forall k | 0 <= k < n
        ensures Text(v)[k] == if k < num then old(Text(v))[k] else c
      {
        assert Text(v)[k] == v.Items()[k] == v.buf[k];
        assert k < num ==> old(Text(v))[k] == s[k];
      }
    }
  }

  /** The resizing of the vector under a string that gets longer. */
  method Lengthen<T(0)>(v: Vector<T>, n: nat, c: T, room: bool) returns (ok: bool)
    requires v.Valid() && v.size < n
    modifies v, v.buf
    ensures v.Valid() && (v.buf == old(v.buf) || fresh(v.buf))
    ensures ok <==> n <= old(v.buf.Length) || room
    ensures !ok ==> v.Items() == old(v.Items())
    ensures ok ==> v.size == n && forall k :: 0 <= k < n ==> v.buf[k] == if k < old(v.size) then old(v.buf[k]) else c
  {
    hide Gapped;
    var size := v.size;
    ghost var s := v.Items();
    ok := v.InsertGap(size, n - size, room);
    if ok {
      GapSize(s, v.Items(), size, n - size);
      GapIs(s, v.Items(), size, n - size);
      assert forall k :: 0 <= k < size ==> v.Items()[k] == s[k];
      forall i | size <= i < n {
        v.buf[i] := c;
      }
    }
  }

  ghost predicate Occurs<T>(s: seq<T>, p: seq<T>, i: int) {
    0 <= i <= |s| - |p| && s[i..i + |p|] == p
  }

  lemma Differs<T>(s: seq<T>, p: seq<T>, i: int, j: nat)
    requires j < |p| && 0 <= i + j < |s| && s[i + j] != p[j]
    ensures !Occurs(s, p, i)
  {
    assert 0 <= i <= |s| - |p| ==> s[i..i + |p|][j] == s[i + j];
  }

  /** The first place at which `ptn` occurs in `str`. */
  method Search<T(==)>(str: seq<T>, ptn: seq<T>) returns (found: bool, at: nat)
    ensures found ==> Occurs(str, ptn, at) && forall i :: i < at ==> !Occurs(str, ptn, i)
    ensures !found ==> forall i :: !Occurs(str, ptn, i)
  {
    var i, j := 0, 0;
    if |str| < |ptn| {
      return false, 0;
    }
    while i < |str| && j < |ptn|
      invariant 0 <= j <= i <= |str| && j <= |ptn| && str[i - j..i] == ptn[..j]
      invariant forall k :: k < i - j ==> !Occurs(str, ptn, k)
      decreases |str| - (i - j), |ptn| - j
    {
      if str[i] == ptn[j] {
        assert str[i - j..i + 1] == str[i - j..i] + [str[i]] && ptn[..j + 1] == ptn[..j] + [ptn[j]];
        i, j := i + 1, j + 1;
      } else {
        Differs(str, ptn, i - j, j);
        i := i + 1 - j;
        j := 0;
      }
    }
    found, at := j == |ptn|, i - j;
  }

  /** The last place at which `ptn` occurs in `str`. */
  method SearchBack<T(==)>(str: seq<T>, ptn: seq<T>) returns (found: bool, at: nat)
    ensures found ==> Occurs(str, ptn, at) && forall i :: i > at ==> !Occurs(str, ptn, i)
    ensures !found ==> forall i :: !Occurs(str, ptn, i)
  {
    var i, j := |str|, |ptn|;
    if |str| < |ptn| {
      return false, 0;
    }
    while i > 0 && j > 0
      invariant 0 <= i && 0 <= j <= |ptn| && i + (|ptn| - j) <= |str| && str[i..i + (|ptn| - j)] == ptn[j..]
      invariant forall k :: k > i - j ==> !Occurs(str, ptn, k)
      decreases i - j + |ptn|, j
    {
      if str[i - 1] == ptn[j - 1] {
        assert str[i - 1..i + (|ptn| - j)] == [str[i - 1]] + str[i..i + (|ptn| - j)];
        assert ptn[j - 1..] == [ptn[j - 1]] + ptn[j..];
        i, j := i - 1, j - 1;
      } else {
        Differs(str, ptn, i - j, j - 1);
        i := i + (|ptn| - j - 1);
        j := |ptn|;
      }
    }
    found, at := j == 0, i;
  }
}
