/**
 The remote terminal, as the machine the echo bytes are meant for: the row the
 cursor is on, an unbounded line of cells, the column, and the rows above it. A rune of width w
 occupies w cells, a rune of width 0 none; columns right of the row are blank.

 Bytes are read as tokens: printable runes, backspace, carriage return, line
 feed, erase to the end of the row, and sequences that draw nothing. A write
 that ends between tokens can be cut anywhere between two of them.
 */
module Terminal {
  import opened Utf8
  import opened Basics

  const BEL: Byte := 7
  const BS: Byte := 8
  const LF: Byte := 10
  const CR: Byte := 13
  const ESC: Byte := 27
  const SPACE: Rune := 0x20
  const STAR: Rune := 0x2A

  /** Display width of each rune. A terminal shows printable ASCII one cell wide. */
  datatype Font = Font(width: Rune -> nat) {
    ghost predicate Valid() {
      forall r: Rune {:trigger width(r)} | 0x20 <= r < 0x7F :: width(r) == 1
    }

    /** The width of a string is the sum of the widths of its runes. */
    function Width(rs: seq<Rune>): nat {
      if rs == [] then 0 else width(rs[0]) + Width(rs[1..])
    }

    function Cells(rs: seq<Rune>): (cs: seq<Cell>)
      ensures |cs| == Width(rs)
    {
      if rs == [] then [] else Glyph(rs[0]) + Cells(rs[1..])
    }

    function Glyph(r: Rune): (cs: seq<Cell>)
      ensures |cs| == width(r)
    {
      seq(width(r), (k: nat) => if r == SPACE then Blank else Part(r, k))
    }
  }

  /** Part(r, k) is the k-th cell of the picture of r. */
  datatype Cell = Blank | Part(r: Rune, k: nat)

  datatype Screen = Screen(row: seq<Cell>, col: nat, above: seq<seq<Cell>>) {
    ghost predicate Valid() {
      col <= |row|
    }
  }

  const FRESH := Screen([], 0, [])

  /** Nothing is on the row yet. */
  predicate IsFresh(t: Screen) {
    t.row == [] && t.col == 0
  }

  datatype Token = Print(r: Rune) | Back | Return | Feed | EraseRight | Silent

  function Blanks(n: nat): (cs: seq<Cell>)
    ensures |cs| == n
  {
    seq(n, _ => Blank)
  }

  function Repeat(b: Byte, n: nat): (bs: seq<Byte>)
    ensures |bs| == n
  {
    seq(n, _ => b)
  }

  /** Overwrites the cells at the cursor and advances. */
  function Put(t: Screen, cs: seq<Cell>): (t': Screen)
    requires t.Valid()
    ensures t'.Valid()
  {
    var after := t.col + |cs|;
    Screen(t.row[..t.col] + cs + (if after <= |t.row| then t.row[after..] else []), after, t.above)
  }

  function MoveBack(t: Screen, n: nat): (t': Screen)
    requires t.Valid()
    ensures t'.Valid()
  {
    t.(col := if n <= t.col then t.col - n else 0)
  }

  function Apply(font: Font, t: Screen, token: Token): (t': Screen)
    requires t.Valid()
    ensures t'.Valid()
  {
    match token
    case Print(r) => Put(t, font.Glyph(r))
    case Back => MoveBack(t, 1)
    case Return => t.(col := 0)
    case Feed => Screen(Blanks(t.col), t.col, t.above + [t.row])
    case EraseRight => t.(row := t.row[..t.col])
    case Silent => t
  }

  /** Index of the final byte of a control sequence whose parameters start at i. */
  function FinalByte(bs: seq<Byte>, i: nat): (res: Option<nat>)
    requires i <= |bs|
    ensures res.Some? ==> i <= res.value < |bs|
    decreases |bs| - i
  {
    if i == |bs| then None
    else if 0x40 <= bs[i] <= 0x7E then Some(i)
    else FinalByte(bs, i + 1)
  }

  /** The first token of the stream and its length; None while its end has not arrived. */
  function FirstToken(bs: seq<Byte>): (res: Option<(Token, nat)>)
    requires bs != []
    ensures res.Some? ==> 1 <= res.value.1 <= |bs|
  {
    var b := bs[0];
    if b == ESC then
      if |bs| < 2 then None
      else if bs[1] != 0x5B then Some((Silent, 2))
      else
        var f := FinalByte(bs, 2);
        if f.None? then None
        else Some((if f.value == 2 && bs[2] == 0x4B then EraseRight else Silent, f.value + 1))
    else if b == BS then Some((Back, 1))
    else if b == CR then Some((Return, 1))
    else if b == LF then Some((Feed, 1))
    else if b < 0x20 || b == 0x7F then Some((Silent, 1))
    else if |bs| < ExpectedLen(b) then None
    else
      var (r, n) := Decode(bs);
      Some((Print(r), n))
  }

  /** The screen after the bytes bs have been written to the connection. */
  function Write(font: Font, t: Screen, bs: seq<Byte>): (t': Screen)
    requires t.Valid()
    ensures t'.Valid()
    decreases |bs|
  {
    if bs == [] then t
    else
      var first := FirstToken(bs);
      if first.None? then t
      else Write(font, Apply(font, t, first.value.0), bs[first.value.1..])
  }

  /** bs ends between two tokens: no escape sequence or rune is left half sent. */
  ghost predicate Complete(bs: seq<Byte>)
    decreases |bs|
  {
    bs == [] ||
    var first := FirstToken(bs);
    first.Some? && Complete(bs[first.value.1..])
  }

  /** A rune that shows as itself: no control character, neither of ASCII nor of the C1 set. */
  predicate Printable(r: Rune) {
    0x20 <= r < 0x7F || 0xA0 <= r
  }

  ghost predicate AllPrintable(rs: seq<Rune>) {
    forall r | r in rs :: Printable(r)
  }

  // ---- widths add up ----

  lemma {:induction false} WidthAppend(font: Font, a: seq<Rune>, b: seq<Rune>)
    ensures font.Width(a + b) == font.Width(a) + font.Width(b)
    ensures font.Cells(a + b) == font.Cells(a) + font.Cells(b)
  {
    if a == [] {
      assert a + b == b;
    } else {
      assert (a + b)[1..] == a[1..] + b;
      WidthAppend(font, a[1..], b);
    }
  }

  lemma WidthOne(font: Font, r: Rune)
    ensures font.Width([r]) == font.width(r)
    ensures font.Cells([r]) == font.Glyph(r)
  {
    assert [r][1..] == [];
  }

  // ---- writing in pieces ----

  lemma {:induction false} FinalByteStable(a: seq<Byte>, b: seq<Byte>, i: nat)
    requires i <= |a| && FinalByte(a, i).Some?
    ensures FinalByte(a + b, i) == FinalByte(a, i)
    decreases |a| - i
  {
    if i < |a| && !(0x40 <= a[i] <= 0x7E) {
      FinalByteStable(a, b, i + 1);
    }
  }

  lemma FirstTokenStable(a: seq<Byte>, b: seq<Byte>)
    requires a != [] && FirstToken(a).Some?
    ensures FirstToken(a + b) == FirstToken(a)
  {
    if a[0] == ESC && |a| >= 2 && a[1] == 0x5B {
      FinalByteStable(a, b, 2);
    } else if a[0] != ESC && a[0] >= 0x20 && a[0] != 0x7F {
      var n := ExpectedLen(a[0]);
      assert forall i | 0 <= i < n :: (a + b)[i] == a[i];
    }
  }

  /** Splitting a write at a token boundary changes nothing. */
  lemma {:induction false} WriteAppend(font: Font, t: Screen, a: seq<Byte>, b: seq<Byte>)
    requires t.Valid() && Complete(a)
    ensures Write(font, t, a + b) == Write(font, Write(font, t, a), b)
    ensures Complete(b) ==> Complete(a + b)
    decreases |a|
  {
    if a == [] {
      assert a + b == b;
    } else {
      FirstTokenStable(a, b);
      var (token, n) := FirstToken(a).value;
      assert (a + b)[n..] == a[n..] + b;
      WriteAppend(font, Apply(font, t, token), a[n..], b);
    }
  }

  lemma PutPut(t: Screen, a: seq<Cell>, b: seq<Cell>)
    requires t.Valid()
    ensures Put(Put(t, a), b) == Put(t, a + b)
  {
    var t1 := Put(t, a);
    assert t1.row[..t1.col] == t.row[..t.col] + a;
  }

  /** Printable text overwrites its cells in place. */
  lemma {:induction false} WriteText(font: Font, t: Screen, rs: seq<Rune>)
    requires t.Valid() && AllPrintable(rs)
    ensures Complete(EncodeAll(rs))
    ensures Write(font, t, EncodeAll(rs)) == Put(t, font.Cells(rs))
    decreases |rs|
  {
    if rs == [] {
      assert Put(t, []) == t;
    } else {
      var r := rs[0];
      var e, rest := Encode(r), EncodeAll(rs[1..]);
      DecodeEncode(r, rest);
      EncodeShape(r);
      assert r in rs && (e + rest)[0] == e[0];
      assert FirstToken(e + rest) == Some((Print(r), |e|));
      assert (e + rest)[|e|..] == rest;
      WriteText(font, Apply(font, t, Print(r)), rs[1..]);
      PutPut(t, font.Glyph(r), font.Cells(rs[1..]));
    }
  }

  lemma {:induction false} WriteBack(font: Font, t: Screen, n: nat)
    requires t.Valid()
    ensures Complete(Repeat(BS, n))
    ensures Write(font, t, Repeat(BS, n)) == MoveBack(t, n)
    decreases n
  {
    if n != 0 {
      assert Repeat(BS, n)[1..] == Repeat(BS, n - 1);
      WriteBack(font, MoveBack(t, 1), n - 1);
    }
  }

  lemma {:induction false} WriteBlanks(font: Font, t: Screen, n: nat)
    requires t.Valid() && font.Valid()
    ensures Complete(Repeat(SPACE, n))
    ensures Write(font, t, Repeat(SPACE, n)) == Put(t, Blanks(n))
    decreases n
  {
    if n == 0 {
      assert Put(t, []) == t;
    } else {
      var bs := Repeat(SPACE, n);
      assert bs[1..] == Repeat(SPACE, n - 1);
      assert FirstToken(bs) == Some((Print(SPACE), 1));
      assert font.Glyph(SPACE) == Blanks(1);
      WriteBlanks(font, Put(t, Blanks(1)), n - 1);
      PutPut(t, Blanks(1), Blanks(n - 1));
      assert Blanks(1) + Blanks(n - 1) == Blanks(n);
    }
  }

  /** Whatever was on the row goes up, and CR LF leaves the cursor at the start of a fresh one. */
  lemma WriteNewline(font: Font, t: Screen)
    requires t.Valid()
    ensures Complete([CR, LF])
    ensures Write(font, t, [CR, LF]) == Screen([], 0, t.above + [t.row])
  {
    var bs: seq<Byte> := [CR, LF];
    assert bs[1..] == [LF] && bs[1..][1..] == [];
    assert Complete(bs[1..]);
    var t' := Screen([], 0, t.above + [t.row]);
    assert Write(font, t.(col := 0), bs[1..]) == t' by {
      assert FirstToken(bs[1..]) == Some((Feed, 1));
      assert Apply(font, t.(col := 0), Feed) == t';
    }
  }

  /** What is written does not depend on the rows above, and only adds to them. */
  lemma {:induction false} WriteAbove(font: Font, t: Screen, bs: seq<Byte>)
    requires t.Valid()
    ensures var w := Write(font, t.(above := []), bs);
      Write(font, t, bs) == w.(above := t.above + w.above)
    decreases |bs|
  {
    hide FirstToken, Apply;
    if bs == [] || FirstToken(bs).None? {
      assert t.above + [] == t.above;
    } else {
      var (token, n) := FirstToken(bs).value;
      var t1 := Apply(font, t, token);
      var u1 := Apply(font, t.(above := []), token);
      ApplyAbove(font, t, token);
      WriteAbove(font, t1, bs[n..]);
      WriteAbove(font, u1, bs[n..]);
      var w := Write(font, u1.(above := []), bs[n..]);
      assert t1.(above := []) == u1.(above := []);
      Assoc(t.above, u1.above, w.above);
    }
  }

  lemma ApplyAbove(font: Font, t: Screen, token: Token)
    requires t.Valid()
    ensures var u1 := Apply(font, t.(above := []), token);
      Apply(font, t, token) == u1.(above := t.above + u1.above)
  {
    assert t.above + [] == t.above;
  }

  /** On a fresh row. */
  lemma WriteFresh(font: Font, t: Screen, bs: seq<Byte>)
    requires IsFresh(t)
    ensures var w := Write(font, FRESH, bs);
      Write(font, t, bs) == w.(above := t.above + w.above)
  {
    WriteAbove(font, t, bs);
  }

  /** Only a line feed moves a row up. */
  lemma {:induction false} NoFeedNoRow(font: Font, t: Screen, bs: seq<Byte>)
    requires t.Valid() && LF !in bs
    ensures Write(font, t, bs).above == t.above
    decreases |bs|
  {
    if bs != [] && FirstToken(bs).Some? {
      var (token, n) := FirstToken(bs).value;
      assert bs[0] in bs;
      assert LF !in bs[n..];
      NoFeedNoRow(font, Apply(font, t, token), bs[n..]);
    }
  }

  lemma {:induction false} PrintableNoFeed(rs: seq<Rune>)
    requires AllPrintable(rs)
    ensures LF !in EncodeAll(rs)
  {
    if rs != [] {
      assert rs[0] in rs;
      EncodeShape(rs[0]);
      EncodeLong(rs[0]);
      PrintableNoFeed(rs[1..]);
    }
  }
}
