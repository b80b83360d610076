/**
 The byte buffer behind the input line, with its cursor a byte offset. Every
 method says what it splices for any bytes at all, and for well-formed UTF-8
 that it performs the edit of `LineEdits` and returns that edit's echo.

 The buffer is clean when both sides of the cursor are well-formed, which is
 to say that the text is and the cursor stands between two runes. The methods
 decode at the cursor only, so the lemmas here are about the first and the
 last rune of a side, and about cutting one off.
 */
module LineBuffers {
  import opened Utf8
  import opened Terminal
  import opened LineEdits
  import opened Basics

  /** Cells taken by a byte string: the sum over its decoded runes. */
  function CellWidth(font: Font, bs: seq<Byte>): nat {
    font.Width(DecodeAll(bs))
  }

  // ---- runes at the two ends of well-formed bytes ----

  lemma NoRunes()
    ensures DecodeAll([]) == [] && EncodeAll([]) == []
  {
  }

  lemma EncodedRune(r: Rune)
    ensures IsUtf8(Encode(r)) && DecodeAll(Encode(r)) == [r]
  {
    EncodeAllOne(r);
    DecodeAllEncodeAll([r]);
  }

  lemma FirstRune(bs: seq<Byte>)
    requires IsUtf8(bs) && bs != []
    ensures var rs := DecodeAll(bs);
      && rs != []
      && Decode(bs) == (rs[0], |Encode(rs[0])|)
      && bs[..Decode(bs).1] == Encode(rs[0])
      && IsUtf8(bs[Decode(bs).1..])
      && DecodeAll(bs[Decode(bs).1..]) == rs[1..]
  {
    var rs := DecodeAll(bs);
    var e, rest := Encode(rs[0]), EncodeAll(rs[1..]);
    assert bs == e + rest;
    DecodeEncode(rs[0], rest);
    assert (e + rest)[|e|..] == rest;
    DecodeAllEncodeAll(rs[1..]);
  }

  lemma LastRune(bs: seq<Byte>)
    requires IsUtf8(bs) && bs != []
    ensures var rs := DecodeAll(bs);
      var k := |bs| - DecodeLast(bs).1;
      && rs != []
      && DecodeLast(bs) == (Last(rs), |Encode(Last(rs))|)
      && IsUtf8(bs[..k])
      && DecodeAll(bs[..k]) == Init(rs)
  {
    hide DecodeLast, Encode;
    var rs := DecodeAll(bs);
    var front := EncodeAll(Init(rs));
    assert rs == Init(rs) + [Last(rs)];
    EncodeAllAppend(Init(rs), [Last(rs)]);
    EncodeAllOne(Last(rs));
    assert bs == front + Encode(Last(rs));
    DecodeLastEncode(front, Last(rs));
    assert (front + Encode(Last(rs)))[..|front|] == front;
    DecodeAllEncodeAll(Init(rs));
  }

  lemma NotUtf8(bs: seq<Byte>, k: nat)
    requires k < |bs| && NeverInUtf8(bs[k])
    ensures !IsUtf8(bs)
  {
    EncodeAllBytes(DecodeAll(bs));
    assert bs[k] in bs;
  }

  /** A rune moves from the end of one text to the front of the next. */
  lemma CarryBack(left: seq<Byte>, right: seq<Byte>)
    requires IsUtf8(left) && IsUtf8(right) && left != []
    ensures var k := |left| - DecodeLast(left).1;
      var rs := DecodeAll(left);
      && rs != [] && Last(rs) == DecodeLast(left).0
      && IsUtf8(left[..k]) && DecodeAll(left[..k]) == Init(rs)
      && IsUtf8(left[k..] + right) && DecodeAll(left[k..] + right) == [Last(rs)] + DecodeAll(right)
  {
    hide *;
    LastRune(left);
    LastRuneBytes(left);
    EncodedRune(Last(DecodeAll(left)));
    Utf8Append(Encode(Last(DecodeAll(left))), right);
  }

  lemma LastRuneBytes(bs: seq<Byte>)
    requires IsUtf8(bs) && bs != []
    ensures DecodeAll(bs) != [] && bs[|bs| - DecodeLast(bs).1..] == Encode(Last(DecodeAll(bs)))
  {
    hide *;
    LastRune(bs);
    WithoutLast(bs);
  }

  lemma WithoutLast(bs: seq<Byte>)
    requires IsUtf8(bs) && DecodeAll(bs) != []
    ensures var e := Encode(Last(DecodeAll(bs)));
      |e| <= |bs| && bs[|bs| - |e|..] == e
  {
    hide Decode, DecodeAll, Encode;
    var rs := DecodeAll(bs);
    var front, e := EncodeAll(Init(rs)), Encode(Last(rs));
    assert rs == Init(rs) + [Last(rs)];
    EncodeAllAppend(Init(rs), [Last(rs)]);
    EncodeAllOne(Last(rs));
    assert bs == front + e;
  }

  lemma CarryOver(left: seq<Byte>, right: seq<Byte>)
    requires IsUtf8(left) && IsUtf8(right) && right != []
    ensures var n := Decode(right).1;
      var rs := DecodeAll(right);
      && rs != [] && right[..n] == Encode(rs[0])
      && IsUtf8(right[n..]) && DecodeAll(right[n..]) == rs[1..]
      && IsUtf8(left + right[..n]) && DecodeAll(left + right[..n]) == DecodeAll(left) + [rs[0]]
  {
    hide *;
    FirstRune(right);
    EncodedRune(DecodeAll(right)[0]);
    Utf8Append(left, Encode(DecodeAll(right)[0]));
  }

  lemma SplitAtRune(bs: seq<Byte>, i: nat, k: nat)
    requires IsUtf8(bs) && i <= |bs| && k <= |DecodeAll(bs)|
    requires IsUtf8(bs[..i]) && DecodeAll(bs[..i]) == DecodeAll(bs)[..k]
    ensures DecodeAll(bs[i..]) == DecodeAll(bs)[k..]
    ensures k < |DecodeAll(bs)| ==> i < |bs|
  {
    hide Decode, DecodeAll, Encode, EncodeAll;
    var rs := DecodeAll(bs);
    assert rs == rs[..k] + rs[k..];
    EncodeAllAppend(rs[..k], rs[k..]);
    assert bs[i..] == EncodeAll(rs[k..]);
    DecodeAllEncodeAll(rs[k..]);
    assert i == |bs| ==> bs[..i] == bs;
  }

  class LineEdit {
    const font: Font
    var buf: seq<Byte>
    var cursor: nat

    ghost predicate Valid()
      reads this
    {
      cursor <= |buf|
    }

    /** The buffer is well-formed UTF-8 and the cursor stands between two runes. */
    ghost predicate Clean()
      reads this
    {
      Valid() && IsUtf8(buf[..cursor]) && IsUtf8(buf[cursor..])
    }

    ghost function Model(): Line
      requires Valid()
      reads this
    {
      Line(DecodeAll(buf[..cursor]), DecodeAll(buf[cursor..]))
    }

    ghost predicate Holds(l: Line)
      reads this
    {
      Clean() && Model() == l
    }

    lemma HoldsSplice(a: seq<Byte>, b: seq<Byte>)
      requires buf == a + b && cursor == |a| && IsUtf8(a) && IsUtf8(b)
      ensures Holds(Line(DecodeAll(a), DecodeAll(b)))
    {
      assert (a + b)[..|a|] == a && (a + b)[|a|..] == b;
    }

    constructor (font: Font)
      ensures this.font == font && buf == [] && cursor == 0
      ensures Holds(EMPTY)
    {
      this.font := font;
      buf, cursor := [], 0;
      new;
      assert buf[..cursor] == [] && buf[cursor..] == [];
    }

    method Reset()
      modifies this
      ensures buf == [] && cursor == 0 && Holds(EMPTY)
    {
      buf, cursor := [], 0;
      assert buf[..cursor] == [] && buf[cursor..] == [];
    }

    /** Places one byte at the cursor. */
    method Insert(b: Byte) returns (out: seq<Byte>)
      requires Valid()
      modifies this
      ensures Valid() && cursor == old(cursor) + 1
      ensures buf == old(buf[..cursor]) + [b] + old(buf[cursor..])
      ensures old(Clean()) && b < 0x80 ==>
                && Holds(Edited(old(Model()), Op.InsertRune(b)))
                && out == EchoOf(font, old(Model()), Op.InsertRune(b))
      ensures NeverInUtf8(b) ==> !Clean()
    {
      ghost var left, right := buf[..cursor], buf[cursor..];
      buf := buf[..cursor] + [b] + buf[cursor..];
      cursor := cursor + 1;
      var suffix := buf[cursor..];
      assert suffix == right && buf[..cursor] == left + [b];
      if suffix == [] {
        out := [b];
      } else {
        out := [b] + suffix + Repeat(BS, CellWidth(font, suffix));
      }
      if old(Clean()) && b < 0x80 {
        InsertIsEdit(b, left, right, out);
      }
      if NeverInUtf8(b) {
        NotUtf8(buf[..cursor], cursor - 1);
      }
    }

    lemma InsertIsEdit(r: Rune, left: seq<Byte>, right: seq<Byte>, out: seq<Byte>)
      requires IsUtf8(left) && IsUtf8(right)
      requires buf == left + Encode(r) + right && cursor == |left + Encode(r)|
      requires out == if right == [] then Encode(r) else Encode(r) + right + Repeat(BS, CellWidth(font, right))
      ensures var l := Line(DecodeAll(left), DecodeAll(right));
        Holds(Edited(l, Op.InsertRune(r))) && out == EchoOf(font, l, Op.InsertRune(r))
    {
      hide Decode, Encode;
      EncodedRune(r);
      Utf8Append(left, Encode(r));
      HoldsSplice(left + Encode(r), right);
      EncodeAllAppend([r], DecodeAll(right));
      EncodeAllOne(r);
      assert Encode(r) + right == EncodeAll([r] + DecodeAll(right));
      assert Repeat(BS, 0) == [] && Repeat(SPACE, 0) == [];
    }

    /** Places a rune at the cursor. */
    method InsertRune(r: Rune) returns (out: seq<Byte>)
      requires Valid()
      modifies this
      ensures Valid() && cursor == old(cursor) + |Encode(r)|
      ensures buf == old(buf[..cursor]) + Encode(r) + old(buf[cursor..])
      ensures old(Clean()) ==>
                && Holds(Edited(old(Model()), Op.InsertRune(r)))
                && out == EchoOf(font, old(Model()), Op.InsertRune(r))
    {
      var enc := Encode(r);
      ghost var left, right := buf[..cursor], buf[cursor..];
      buf := buf[..cursor] + enc + buf[cursor..];
      cursor := cursor + |enc|;
      var suffix := buf[cursor..];
      assert suffix == right && buf[..cursor] == left + enc;
      if suffix == [] {
        out := enc;
      } else {
        out := enc + suffix + Repeat(BS, CellWidth(font, suffix));
      }
      if old(Clean()) {
        InsertIsEdit(r, left, right, out);
      }
    }

    /** Removes the rune ending at the cursor. */
    method Backspace() returns (out: seq<Byte>)
      requires Valid()
      modifies this
      ensures Valid() && cursor <= old(cursor) <= cursor + 4
      ensures old(cursor) == 0 <==> cursor == old(cursor)
      ensures buf == old(buf)[..cursor] + old(buf[cursor..])
      ensures old(Clean()) ==>
                && Holds(Edited(old(Model()), Op.Backspace))
                && out == EchoOf(font, old(Model()), Op.Backspace)
    {
      hide Decode, DecodeLast, Encode, DecodeAll, EncodeAll;
      NoRunes();
      ghost var left, right := buf[..cursor], buf[cursor..];
      if cursor == 0 {
        assert left == [] && buf == left + right;
        return [];
      }
      var (r, size) := DecodeLast(buf[..cursor]);
      var w := AtLeastOne(font.width(r));
      buf := buf[..cursor - size] + buf[cursor..];
      cursor := cursor - size;
      var suffix := buf[cursor..];
      assert suffix == right;
      var suffixCells := CellWidth(font, suffix);
      out := Repeat(BS, w) + suffix + Repeat(SPACE, w) + Repeat(BS, suffixCells + w);
      if old(Clean()) {
        LastRune(left);
        assert left[..cursor] == old(buf)[..cursor];
        HoldsSplice(left[..cursor], right);
      }
    }

    /** Removes the rune at the cursor. */
    method Delete() returns (out: seq<Byte>)
      requires Valid()
      modifies this
      ensures Valid() && cursor == old(cursor)
      ensures |old(buf)| == cursor <==> buf == old(buf)
      ensures |buf| <= |old(buf)| <= |buf| + 4
      ensures buf == old(buf[..cursor]) + old(buf)[cursor + (|old(buf)| - |buf|)..]
      ensures old(Clean()) ==>
                && Holds(Edited(old(Model()), Op.Delete))
                && out == EchoOf(font, old(Model()), Op.Delete)
    {
      hide Decode, DecodeLast, Encode, DecodeAll, EncodeAll;
      NoRunes();
      ghost var left, right := buf[..cursor], buf[cursor..];
      if cursor >= |buf| {
        assert right == [] && buf == left + right;
        return [];
      }
      var (r, size) := Decode(buf[cursor..]);
      var w := AtLeastOne(font.width(r));
      buf := buf[..cursor] + buf[cursor + size..];
      var suffix := buf[cursor..];
      assert suffix == right[size..];
      var suffixCells := CellWidth(font, suffix);
      out := suffix + Repeat(SPACE, w) + Repeat(BS, suffixCells + w);
      if old(Clean()) {
        FirstRune(right);
        HoldsSplice(left, right[size..]);
        assert Repeat(BS, 0) + suffix == suffix;
      }
    }

    method MoveLeft() returns (out: seq<Byte>)
      requires Valid()
      modifies this`cursor
      ensures Valid() && cursor <= old(cursor) <= cursor + 4
      ensures old(cursor) == 0 <==> cursor == old(cursor)
      ensures old(Clean()) ==>
                && Holds(Edited(old(Model()), Op.MoveLeft))
                && out == EchoOf(font, old(Model()), Op.MoveLeft)
    {
      hide Decode, DecodeLast, Encode, DecodeAll, EncodeAll;
      NoRunes();
      ghost var left, right := buf[..cursor], buf[cursor..];
      if cursor == 0 {
        assert left == [];
        return [];
      }
      var (r, size) := DecodeLast(buf[..cursor]);
      cursor := cursor - size;
      out := Repeat(BS, AtLeastOne(font.width(r)));
      if old(Clean()) {
        CarryBack(left, right);
        assert buf == left[..cursor] + (left[cursor..] + right);
        HoldsSplice(left[..cursor], left[cursor..] + right);
      }
    }

    method MoveRight() returns (out: seq<Byte>)
      requires Valid()
      modifies this`cursor
      ensures Valid() && old(cursor) <= cursor <= old(cursor) + 4
      ensures old(cursor) == |buf| <==> cursor == old(cursor)
      ensures out == buf[old(cursor)..cursor]
      ensures old(Clean()) ==>
                && Holds(Edited(old(Model()), Op.MoveRight))
                && out == EchoOf(font, old(Model()), Op.MoveRight)
    {
      hide Decode, DecodeLast, Encode, DecodeAll, EncodeAll;
      NoRunes();
      ghost var left, right := buf[..cursor], buf[cursor..];
      if cursor >= |buf| {
        assert right == [];
        return [];
      }
      var (_, size) := Decode(buf[cursor..]);
      out := buf[cursor..cursor + size];
      cursor := cursor + size;
      if old(Clean()) {
        CarryOver(left, right);
        assert out == right[..size];
        assert buf == (left + right[..size]) + right[size..];
        HoldsSplice(left + right[..size], right[size..]);
      }
    }

    method MoveHome() returns (out: seq<Byte>)
      requires Valid()
      modifies this`cursor
      ensures Valid() && cursor == 0
      ensures old(Clean()) ==>
                && Holds(Edited(old(Model()), Op.MoveHome))
                && out == EchoOf(font, old(Model()), Op.MoveHome)
    {
      hide Decode, DecodeAll, EncodeAll;
      NoRunes();
      ghost var left, right := buf[..cursor], buf[cursor..];
      if cursor == 0 {
        assert left == [];
        assert EchoOf(font, old(Model()), Op.MoveHome) == [];
        return [];
      }
      var cells := CellWidth(font, buf[..cursor]);
      cursor := 0;
      out := Repeat(BS, cells);
      if old(Clean()) {
        Utf8Append(left, right);
        assert buf == [] + (left + right);
        HoldsSplice([], left + right);
      }
    }

    method MoveEnd() returns (out: seq<Byte>)
      requires Valid()
      modifies this`cursor
      ensures Valid() && cursor == |buf|
      ensures out == buf[old(cursor)..]
      ensures old(Clean()) ==>
                && Holds(Edited(old(Model()), Op.MoveEnd))
                && out == EchoOf(font, old(Model()), Op.MoveEnd)
    {
      hide Decode, DecodeAll, EncodeAll;
      NoRunes();
      ghost var left, right := buf[..cursor], buf[cursor..];
      if cursor >= |buf| {
        assert right == [];
        assert DecodeAll(left) + DecodeAll(right) == DecodeAll(left);
        return [];
      }
      out := buf[cursor..];
      cursor := |buf|;
      if old(Clean()) {
        Utf8Append(left, right);
        assert buf == (left + right) + [];
        HoldsSplice(left + right, []);
      }
    }

    method KillToStart() returns (out: seq<Byte>)
      requires Valid()
      modifies this
      ensures Valid() && cursor == 0 && buf == old(buf[cursor..])
      ensures old(Clean()) ==>
                && Holds(Edited(old(Model()), Op.KillToStart))
                && out == EchoOf(font, old(Model()), Op.KillToStart)
    {
      hide Decode, DecodeAll, EncodeAll;
      NoRunes();
      ghost var left, right := buf[..cursor], buf[cursor..];
      if cursor == 0 {
        assert left == [];
        return [];
      }
      var prefixCells := CellWidth(font, buf[..cursor]);
      var rest := buf[cursor..];
      var restCells := CellWidth(font, rest);
      buf := rest;
      cursor := 0;
      out := Repeat(BS, prefixCells) + rest + Repeat(SPACE, prefixCells) + Repeat(BS, restCells + prefixCells);
      if old(Clean()) {
        assert buf == [] + right;
        HoldsSplice([], right);
      }
    }

    method KillToEnd() returns (out: seq<Byte>)
      requires Valid()
      modifies this
      ensures Valid() && cursor == old(cursor) && buf == old(buf[..cursor])
      ensures old(Clean()) ==>
                && Holds(Edited(old(Model()), Op.KillToEnd))
                && out == EchoOf(font, old(Model()), Op.KillToEnd)
    {
      hide Decode, DecodeAll, EncodeAll;
      NoRunes();
      ghost var left, right := buf[..cursor], buf[cursor..];
      if cursor >= |buf| {
        assert right == [];
        assert EchoOf(font, old(Model()), Op.KillToEnd) == [];
        return [];
      }
      var removedCells := CellWidth(font, buf[cursor..]);
      buf := buf[..cursor];
      out := Repeat(SPACE, removedCells) + Repeat(BS, removedCells);
      if old(Clean()) {
        assert buf == left + [];
        HoldsSplice(left, []);
        assert Redraw(0, [], removedCells, removedCells) == out;
      }
    }

    /** Walks i back over a run of (non-)space runes. */
    method SkipRun(i0: nat, spaces: bool) returns (i: nat)
      requires i0 <= |buf|
      ensures i <= i0
      ensures IsUtf8(buf[..i0]) ==>
                var rs := DecodeAll(buf[..i0]);
                IsUtf8(buf[..i]) && DecodeAll(buf[..i]) == rs[..DropRun(rs, |rs|, spaces)]
    {
      hide Decode, DecodeLast, DecodeAll;
      i := i0;
      ghost var rs := DecodeAll(buf[..i0]);
      ghost var k: nat := |rs|;
      assert rs[..k] == rs;
      while i > 0
        invariant i <= i0 && k <= |rs|
        invariant IsUtf8(buf[..i0]) ==>
                    && IsUtf8(buf[..i]) && DecodeAll(buf[..i]) == rs[..k]
                    && DropRun(rs, |rs|, spaces) == DropRun(rs, k, spaces)
      {
        var (r, size) := DecodeLast(buf[..i]);
        if IsUtf8(buf[..i0]) {
          LastRune(buf[..i]);
          assert buf[..i][..i - size] == buf[..i - size];
          assert r == rs[k - 1];
        }
        if size == 0 || IsSpace(r) != spaces {
          break;
        }
        if IsUtf8(buf[..i0]) {
          assert Init(rs[..k]) == rs[..k - 1];
          k := k - 1;
        }
        i := i - size;
      }
    }

    /** Where the word before the cursor starts: spaces are skipped first, then the word. */
    method PrevWord() returns (i: nat)
      requires Valid()
      ensures i <= cursor
      ensures IsUtf8(buf[..cursor]) && cursor > 0 ==>
                var left := buf[..cursor];
                var rs := DecodeAll(left);
                && i < cursor
                && IsUtf8(left[..i]) && DecodeAll(left[..i]) == rs[..WordStart(rs)]
                && DecodeAll(left[i..]) == rs[WordStart(rs)..]
    {
      hide Decode, DecodeLast, DecodeAll;
      i := SkipRun(cursor, true);
      ghost var left := buf[..cursor];
      assert buf[..i] == left[..i];
      i := SkipRun(i, false);
      assert buf[..i] == left[..i];
      if IsUtf8(left) && cursor > 0 {
        WordCut(left, i);
      }
    }

    /** Removes from the start of the previous word up to the cursor. */
    method KillPrevWord() returns (out: seq<Byte>)
      requires Valid()
      modifies this
      ensures Valid() && cursor <= old(cursor)
      ensures buf == old(buf)[..cursor] + old(buf[cursor..])
      ensures old(Clean()) ==>
                && Holds(Edited(old(Model()), Op.KillPrevWord))
                && out == EchoOf(font, old(Model()), Op.KillPrevWord)
    {
      hide Decode, DecodeLast, Encode, DecodeAll, EncodeAll, WordStart;
      NoRunes();
      ghost var left, right := buf[..cursor], buf[cursor..];
      if cursor == 0 {
        assert left == [] && buf == left + right;
        return [];
      }
      var i := PrevWord();
      if old(Clean()) {
        NonEmpty(left);
      }
      if i == cursor {
        assert buf == buf[..cursor] + buf[cursor..];
        return [];
      }
      var removedCells := CellWidth(font, buf[i..cursor]);
      var suffix := buf[cursor..];
      var suffixCells := CellWidth(font, suffix);
      assert buf[i..cursor] == left[i..] && buf[..i] == left[..i];
      buf := buf[..i] + suffix;
      cursor := i;
      out := Repeat(BS, removedCells) + suffix + Repeat(SPACE, removedCells) + Repeat(BS, suffixCells + removedCells);
      if old(Clean()) {
        HoldsSplice(left[..i], right);
      }
    }

    lemma NonEmpty(bs: seq<Byte>)
      requires bs != []
      ensures DecodeAll(bs) != []
    {
    }

    lemma WordCut(left: seq<Byte>, i: nat)
      requires IsUtf8(left) && left != [] && i <= |left|
      requires IsUtf8(left[..i])
      requires var rs := DecodeAll(left);
        var mid := rs[..DropRun(rs, |rs|, true)];
        DecodeAll(left[..i]) == mid[..DropRun(mid, |mid|, false)]
      ensures var rs := DecodeAll(left);
        && i < |left|
        && DecodeAll(left[..i]) == rs[..WordStart(rs)]
        && DecodeAll(left[i..]) == rs[WordStart(rs)..]
    {
      hide Decode, Encode;
      var rs := DecodeAll(left);
      var j := DropRun(rs, |rs|, true);
      DropRunPrefix(rs, j, false);
      assert rs[..j][..WordStart(rs)] == rs[..WordStart(rs)];
      SplitAtRune(left, i, WordStart(rs));
    }

    /** Swaps the whole line for s. */
    method Replace(s: seq<Byte>) returns (out: seq<Byte>)
      requires Valid()
      modifies this
      ensures Valid() && buf == s && cursor == |s|
      ensures old(Clean()) && IsUtf8(s) ==>
                && Holds(Edited(old(Model()), Op.Replace(DecodeAll(s))))
                && out == EchoOf(font, old(Model()), Op.Replace(DecodeAll(s)))
    {
      ghost var left, right := buf[..cursor], buf[cursor..];
      var prefixCells := CellWidth(font, buf[..cursor]);
      var oldCells := CellWidth(font, buf);
      out := Repeat(BS, prefixCells) + Repeat(SPACE, oldCells) + Repeat(BS, oldCells) + s;
      if Clean() && IsUtf8(s) {
        Utf8Append(left, right);
        assert buf == left + right;
        assert Redraw(prefixCells, [], oldCells, oldCells) + s == out;
      }
      buf := s;
      cursor := |buf|;
      if old(Clean()) && IsUtf8(s) {
        assert buf == s + [];
        HoldsSplice(s, []);
      }
    }
  }

  lemma {:induction false} DropRunPrefix(rs: seq<Rune>, j: nat, spaces: bool)
    requires j <= |rs|
    ensures DropRun(rs[..j], j, spaces) == DropRun(rs, j, spaces)
  {
    DropRunWithin(rs, j, j, spaces);
  }

  lemma {:induction false} DropRunWithin(rs: seq<Rune>, j: nat, i: nat, spaces: bool)
    requires i <= j <= |rs|
    ensures DropRun(rs[..j], i, spaces) == DropRun(rs, i, spaces)
    decreases i
  {
    if i > 0 {
      DropRunWithin(rs, j, i - 1, spaces);
    }
  }
}
