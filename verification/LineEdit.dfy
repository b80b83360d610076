/**
 The cursor-aware input line: a text with a cursor between two runes. The theorem is
 EditKeepsSync: which edits leave the terminal row showing exactly the edited line.
 */
module LineEdits {
  import opened Utf8
  import opened Terminal
  import opened Basics

  datatype Line = Line(left: seq<Rune>, right: seq<Rune>) {
    function Text(): seq<Rune> {
      left + right
    }
  }

  const EMPTY := Line([], [])

  datatype Op =
    | InsertRune(r: Rune)
    | Backspace
    | Delete
    | MoveLeft
    | MoveRight
    | MoveHome
    | MoveEnd
    | KillToStart
    | KillToEnd
    | KillPrevWord
    | Replace(text: seq<Rune>)

  function Last(s: seq<Rune>): Rune
    requires s != []
  {
    s[|s| - 1]
  }

  function Init(s: seq<Rune>): seq<Rune>
    requires s != []
  {
    s[..|s| - 1]
  }

  /** How many of the first i runes stay when a trailing run of (non-)spaces is dropped. */
  function DropRun(rs: seq<Rune>, i: nat, spaces: bool): (k: nat)
    requires i <= |rs|
    ensures k <= i
    ensures i > 0 && IsSpace(rs[i - 1]) == spaces ==> k < i
  {
    if i > 0 && IsSpace(rs[i - 1]) == spaces then DropRun(rs, i - 1, spaces) else i
  }

  /** Where the word before the cursor begins: trailing spaces, then a run of non-spaces. */
  function WordStart(rs: seq<Rune>): (k: nat)
    ensures k <= |rs|
    ensures rs != [] ==> k < |rs|
  {
    DropRun(rs, DropRun(rs, |rs|, true), false)
  }

  /** What each edit does to the text and the cursor. */
  function Edited(l: Line, op: Op): Line {
    match op
    case InsertRune(r) => Line(l.left + [r], l.right)
    case Backspace => if l.left == [] then l else Line(Init(l.left), l.right)
    case Delete => if l.right == [] then l else Line(l.left, l.right[1..])
    case MoveLeft => if l.left == [] then l else Line(Init(l.left), [Last(l.left)] + l.right)
    case MoveRight => if l.right == [] then l else Line(l.left + [l.right[0]], l.right[1..])
    case MoveHome => Line([], l.left + l.right)
    case MoveEnd => Line(l.left + l.right, [])
    case KillToStart => Line([], l.right)
    case KillToEnd => Line(l.left, [])
    case KillPrevWord => Line(l.left[..WordStart(l.left)], l.right)
    case Replace(text) => Line(text, [])
  }

  /** The floor of one cell that erasing and stepping use. */
  function AtLeastOne(w: nat): nat {
    if w == 0 then 1 else w
  }

  /** Step back, draw text, blank what was left over, step back again. */
  function Redraw(back: nat, text: seq<Rune>, blank: nat, again: nat): seq<Byte> {
    Repeat(BS, back) + EncodeAll(text) + Repeat(SPACE, blank) + Repeat(BS, again)
  }

  /** The bytes each edit sends to the terminal. */
  function EchoOf(font: Font, l: Line, op: Op): seq<Byte> {
    match op
    case InsertRune(r) => Redraw(0, [r] + l.right, 0, font.Width(l.right))
    case Backspace =>
      if l.left == [] then []
      else
        var n := AtLeastOne(font.width(Last(l.left)));
        Redraw(n, l.right, n, font.Width(l.right) + n)
    case Delete =>
      if l.right == [] then []
      else
        var n := AtLeastOne(font.width(l.right[0]));
        Redraw(0, l.right[1..], n, font.Width(l.right[1..]) + n)
    case MoveLeft => if l.left == [] then [] else Repeat(BS, AtLeastOne(font.width(Last(l.left))))
    case MoveRight => if l.right == [] then [] else Encode(l.right[0])
    case MoveHome => Repeat(BS, font.Width(l.left))
    case MoveEnd => EncodeAll(l.right)
    case KillToStart =>
      if l.left == [] then []
      else Redraw(font.Width(l.left), l.right, font.Width(l.left), font.Width(l.right) + font.Width(l.left))
    case KillToEnd => Redraw(0, [], font.Width(l.right), font.Width(l.right))
    case KillPrevWord =>
      if l.left == [] then []
      else
        var n := font.Width(l.left[WordStart(l.left)..]);
        Redraw(n, l.right, n, font.Width(l.right) + n)
    case Replace(text) =>
      Redraw(font.Width(l.left), [], font.Width(l.Text()), font.Width(l.Text())) + EncodeAll(text)
  }

  /** The row is `cells` and then blanks, with the cursor at `col`. */
  ghost predicate ShowsCells(t: Screen, cells: seq<Cell>, col: nat) {
    && t.col == col
    && |cells| <= |t.row|
    && t.row == cells + Blanks(|t.row| - |cells|)
  }

  /** t shows `base` (the prompt) followed by the line, then blanks, cursor in place. */
  ghost predicate Shows(font: Font, t: Screen, base: seq<Cell>, l: Line) {
    ShowsCells(t, base + font.Cells(l.Text()), |base| + font.Width(l.left))
  }

  ghost predicate OpPrintable(op: Op) {
    match op
    case InsertRune(r) => Printable(r)
    case Replace(text) => AllPrintable(text)
    case _ => true
  }

  /** The one way an edit can lose the cursor: stepping back over a rune that has no cell. */
  predicate Drifts(font: Font, base: seq<Cell>, l: Line, op: Op) {
    && (op.Backspace? || op.MoveLeft?)
    && l.left != []
    && font.width(Last(l.left)) == 0
    && |base| + font.Width(l.left) > 0
  }

  // ---- the effect of a redraw ----

  lemma ShowsValid(font: Font, t: Screen, base: seq<Cell>, l: Line)
    requires Shows(font, t, base, l)
    ensures t.Valid() && t.col == |base| + font.Width(l.left)
    ensures font.Width(l.Text()) == font.Width(l.left) + font.Width(l.right)
  {
    WidthAppend(font, l.left, l.right);
  }

  lemma WriteNothing(font: Font, t: Screen)
    requires t.Valid()
    ensures Write(font, t, []) == t && Complete([])
  {
  }

  lemma ShowsMeans(font: Font, t: Screen, base: seq<Cell>, l: Line)
    ensures Shows(font, t, base, l) == ShowsCells(t, base + font.Cells(l.Text()), |base| + font.Width(l.left))
  {
  }

  lemma WriteRedraw(font: Font, t: Screen, back: nat, text: seq<Rune>, blank: nat, again: nat)
    requires font.Valid() && t.Valid() && AllPrintable(text)
    ensures Complete(Redraw(back, text, blank, again))
    ensures Write(font, t, Redraw(back, text, blank, again))
         == MoveBack(Put(MoveBack(t, back), font.Cells(text) + Blanks(blank)), again)
  {
    var t1 := MoveBack(t, back);
    var t2 := Put(t1, font.Cells(text));
    var t3 := Put(t2, Blanks(blank));
    WriteBack(font, t, back);
    WriteText(font, t1, text);
    WriteBlanks(font, t2, blank);
    WriteBack(font, t3, again);
    var p1 := Repeat(BS, back);
    var p2 := p1 + EncodeAll(text);
    WriteAppend(font, t, p1, EncodeAll(text));
    WriteAppend(font, t, p2, Repeat(SPACE, blank));
    WriteAppend(font, t, p2 + Repeat(SPACE, blank), Repeat(BS, again));
    PutPut(t1, font.Cells(text), Blanks(blank));
  }

  lemma OverwriteCells(t: Screen, front: seq<Cell>, gone: seq<Cell>, back: nat, drawn: seq<Cell>, blank: nat,
                       again: nat)
    requires ShowsCells(t, front + gone, |front| + back) && back <= |gone|
    requires |gone| <= |drawn| + blank && again <= |drawn| + blank
    ensures t.Valid()
    ensures ShowsCells(MoveBack(Put(MoveBack(t, back), drawn + Blanks(blank)), again),
                       front + drawn, |front| + |drawn| + blank - again)
  {
    var t1 := MoveBack(t, back);
    assert t1.col == |front|;
    assert t1.row[..|front|] == front;
    var t2 := Put(t1, drawn + Blanks(blank));
    var after := |front| + |drawn| + blank;
    assert t2.row[..after] == front + drawn + Blanks(blank);
    assert forall i | after <= i < |t2.row| :: t2.row[i] == Blank;
    assert t2.row == front + drawn + Blanks(|t2.row| - |front| - |drawn|);
  }

  lemma RedrawCells(font: Font, t: Screen, front: seq<Cell>, gone: seq<Cell>, back: nat, text: seq<Rune>,
                    blank: nat, again: nat)
    requires font.Valid() && AllPrintable(text)
    requires ShowsCells(t, front + gone, |front| + back) && back <= |gone|
    requires |gone| <= font.Width(text) + blank && again <= font.Width(text) + blank
    ensures t.Valid() && Complete(Redraw(back, text, blank, again))
    ensures ShowsCells(Write(font, t, Redraw(back, text, blank, again)),
                       front + font.Cells(text), |front| + font.Width(text) + blank - again)
  {
    hide Write, Complete, Redraw;
    WriteRedraw(font, t, back, text, blank, again);
    OverwriteCells(t, front, gone, back, font.Cells(text), blank, again);
  }

  /** `kept + gone`, drawn after the prompt, splits where kept ends. */
  lemma CellsSplit(font: Font, base: seq<Cell>, kept: seq<Rune>, gone: seq<Rune>)
    ensures base + font.Cells(kept + gone) == base + font.Cells(kept) + font.Cells(gone)
    ensures font.Width(kept + gone) == font.Width(kept) + font.Width(gone)
  {
    WidthAppend(font, kept, gone);
    assert base + font.Cells(kept) + font.Cells(gone) == base + (font.Cells(kept) + font.Cells(gone));
  }

  lemma ShowsElim(font: Font, t: Screen, base: seq<Cell>, l: Line, kept: seq<Rune>, gone: seq<Rune>, back: nat)
    requires Shows(font, t, base, l) && l.Text() == kept + gone
    requires font.Width(l.left) == font.Width(kept) + back
    ensures var front := base + font.Cells(kept);
      ShowsCells(t, front + font.Cells(gone), |front| + back)
    ensures back <= font.Width(gone)
  {
    hide *;
    ShowsMeans(font, t, base, l);
    ShowsValid(font, t, base, l);
    CellsSplit(font, base, kept, gone);
    assert base + font.Cells(kept + gone) == base + font.Cells(kept) + font.Cells(gone);
  }

  lemma ShowsIntro(font: Font, t: Screen, base: seq<Cell>, l: Line, kept: seq<Rune>, text: seq<Rune>, col: nat)
    requires ShowsCells(t, base + font.Cells(kept) + font.Cells(text), col)
    requires l.Text() == kept + text && col == |base| + font.Width(l.left)
    ensures Shows(font, t, base, l)
  {
    hide *;
    CellsSplit(font, base, kept, text);
    ShowsMeans(font, t, base, l);
  }

  /**
   From a row showing `kept + gone`, going back to the end of `kept`, drawing
   `text` and blanking what stuck out shows any line m whose text is `kept + text`.
   */
  lemma RedrawShows(font: Font, t: Screen, base: seq<Cell>, l: Line, kept: seq<Rune>, gone: seq<Rune>,
                    back: nat, text: seq<Rune>, blank: nat, again: nat, m: Line)
    requires font.Valid() && AllPrintable(text)
    requires Shows(font, t, base, l) && l.Text() == kept + gone && m.Text() == kept + text
    requires font.Width(l.left) == font.Width(kept) + back
    requires font.Width(gone) <= font.Width(text) + blank && again <= font.Width(text) + blank
    requires font.Width(m.left) + again == font.Width(kept) + font.Width(text) + blank
    ensures t.Valid() && Complete(Redraw(back, text, blank, again))
    ensures Shows(font, Write(font, t, Redraw(back, text, blank, again)), base, m)
  {
    hide *;
    ShowsElim(font, t, base, l, kept, gone, back);
    var front := base + font.Cells(kept);
    RedrawCells(font, t, front, font.Cells(gone), back, text, blank, again);
    ShowsIntro(font, Write(font, t, Redraw(back, text, blank, again)), base, m, kept, text,
               |front| + font.Width(text) + blank - again);
  }

  lemma AdvanceCells(t: Screen, front: seq<Cell>, middle: seq<Cell>, rest: seq<Cell>)
    requires ShowsCells(t, front + middle + rest, |front|)
    ensures t.Valid()
    ensures ShowsCells(Put(t, middle), front + middle + rest, |front + middle|)
  {
    assert t.row[|front|..|front + middle|] == middle;
    assert Put(t, middle).row == t.row;
  }

  /** Drawing again the cells that are already there only moves the cursor. */
  lemma AdvanceShows(font: Font, t: Screen, base: seq<Cell>, left: seq<Rune>, text: seq<Rune>, rest: seq<Rune>)
    requires Shows(font, t, base, Line(left, text + rest))
    ensures t.Valid()
    ensures Shows(font, Put(t, font.Cells(text)), base, Line(left + text, rest))
  {
    CellsSplit(font, base, left, text);
    CellsSplit(font, base, left + text, rest);
    Assoc(left, text, rest);
    AdvanceCells(t, base + font.Cells(left), font.Cells(text), font.Cells(rest));
  }

  // ---- the main theorem ----

  /**
   After any edit the row shows the edited line with the cursor in place, unless
   the edit stepped back over a rune without cells at a column other than 0; and
   in that case it does not.
   */
  lemma EditKeepsSync(font: Font, t: Screen, base: seq<Cell>, l: Line, op: Op)
    requires font.Valid() && Shows(font, t, base, l)
    requires AllPrintable(l.left) && AllPrintable(l.right) && OpPrintable(op)
    ensures t.Valid() && Complete(EchoOf(font, l, op))
    ensures Shows(font, Write(font, t, EchoOf(font, l, op)), base, Edited(l, op)) <==> !Drifts(font, base, l, op)
  {
    hide Shows, Complete, Write, EchoOf, Edited;
    ShowsValid(font, t, base, l);
    match op
    case InsertRune(r) => InsertKeepsSync(font, t, base, l, r);
    case Backspace => BackspaceSync(font, t, base, l);
    case Delete => DeleteKeepsSync(font, t, base, l);
    case MoveLeft => MoveLeftSync(font, t, base, l);
    case MoveRight => MoveRightKeepsSync(font, t, base, l);
    case MoveHome => MoveHomeKeepsSync(font, t, base, l);
    case MoveEnd => MoveEndKeepsSync(font, t, base, l);
    case KillToStart => KillToStartKeepsSync(font, t, base, l);
    case KillToEnd => KillToEndKeepsSync(font, t, base, l);
    case KillPrevWord => KillPrevWordKeepsSync(font, t, base, l);
    case Replace(text) => ReplaceKeepsSync(font, t, base, l, text);
  }

  lemma InsertKeepsSync(font: Font, t: Screen, base: seq<Cell>, l: Line, r: Rune)
    requires font.Valid() && Shows(font, t, base, l) && AllPrintable(l.right) && Printable(r)
    ensures t.Valid() && Complete(EchoOf(font, l, InsertRune(r)))
    ensures Shows(font, Write(font, t, EchoOf(font, l, InsertRune(r))), base, Edited(l, InsertRune(r)))
  {
    hide Shows, Complete, Write, Redraw;
    ShowsValid(font, t, base, l);
    var text := [r] + l.right;
    WidthAppend(font, [r], l.right);
    WidthAppend(font, l.left, [r]);
    Assoc(l.left, [r], l.right);
    RedrawShows(font, t, base, l, l.left, l.right, 0, text, 0, font.Width(l.right), Line(l.left + [r], l.right));
  }

  /** Cutting everything between rune k and the cursor out of the line. */
  lemma CutKeepsSync(font: Font, t: Screen, base: seq<Cell>, l: Line, k: nat)
    requires font.Valid() && Shows(font, t, base, l) && k <= |l.left| && AllPrintable(l.right)
    ensures var n := font.Width(l.left[k..]);
      var echo := Redraw(n, l.right, n, font.Width(l.right) + n);
      t.Valid() && Complete(echo) && Shows(font, Write(font, t, echo), base, Line(l.left[..k], l.right))
  {
    hide Shows, Complete, Write, Redraw;
    ShowsValid(font, t, base, l);
    var kept, cut := l.left[..k], l.left[k..];
    assert l.left == kept + cut;
    var n := font.Width(cut);
    WidthAppend(font, kept, cut);
    WidthAppend(font, cut, l.right);
    Assoc(kept, cut, l.right);
    RedrawShows(font, t, base, l, kept, cut + l.right, n, l.right, n, font.Width(l.right) + n, Line(kept, l.right));
  }

  lemma BackspaceSync(font: Font, t: Screen, base: seq<Cell>, l: Line)
    requires font.Valid() && Shows(font, t, base, l) && AllPrintable(l.right)
    ensures t.Valid() && Complete(EchoOf(font, l, Backspace))
    ensures Shows(font, Write(font, t, EchoOf(font, l, Backspace)), base, Edited(l, Backspace))
            <==> !Drifts(font, base, l, Backspace)
  {
    hide Shows, Complete, Write, Redraw;
    ShowsValid(font, t, base, l);
    WriteNothing(font, t);
    if l.left != [] {
      var r, kept := Last(l.left), Init(l.left);
      assert l.left == kept + [r];
      WidthAppend(font, kept, [r]);
      WidthOne(font, r);
      if font.width(r) > 0 {
        assert l.left[|kept|..] == [r];
        CutKeepsSync(font, t, base, l, |kept|);
      } else {
        BackOverNothing(font, t, base, kept, r, l.right);
      }
    }
  }

  /** Erasing a rune without cells steps back one cell all the same, unless there is none. */
  lemma BackOverNothing(font: Font, t: Screen, base: seq<Cell>, kept: seq<Rune>, r: Rune, right: seq<Rune>)
    requires font.Valid() && Shows(font, t, base, Line(kept + [r], right)) && AllPrintable(right)
    requires font.width(r) == 0
    ensures t.Valid()
    ensures var echo := Redraw(1, right, 1, font.Width(right) + 1);
      && Complete(echo)
      && (Shows(font, Write(font, t, echo), base, Line(kept, right)) <==> t.col == 0)
  {
    ShowsValid(font, t, base, Line(kept + [r], right));
    WidthAppend(font, kept, [r]);
    WidthOne(font, r);
    WriteRedraw(font, t, 1, right, 1, font.Width(right) + 1);
    if t.col == 0 {
      WidthAppend(font, [r], right);
      Assoc(kept, [r], right);
      RedrawShows(font, t, base, Line(kept + [r], right), kept, [r] + right, 0, right, 1, font.Width(right) + 1,
                  Line(kept, right));
      WriteRedraw(font, t, 0, right, 1, font.Width(right) + 1);
    }
  }

  lemma DeleteKeepsSync(font: Font, t: Screen, base: seq<Cell>, l: Line)
    requires font.Valid() && Shows(font, t, base, l) && AllPrintable(l.right)
    ensures t.Valid() && Complete(EchoOf(font, l, Delete))
    ensures Shows(font, Write(font, t, EchoOf(font, l, Delete)), base, Edited(l, Delete))
  {
    hide Shows, Complete, Write, Redraw;
    ShowsValid(font, t, base, l);
    WriteNothing(font, t);
    if l.right != [] {
      var r, rest := l.right[0], l.right[1..];
      var n := AtLeastOne(font.width(r));
      assert l.right == [r] + rest;
      WidthAppend(font, [r], rest);
      WidthOne(font, r);
      RedrawShows(font, t, base, l, l.left, l.right, 0, rest, n, font.Width(rest) + n, Line(l.left, rest));
    }
  }

  /** Stepping back n cells shows m, a line of the same text, exactly when it lands on m's cursor. */
  lemma StepBackShows(font: Font, t: Screen, base: seq<Cell>, l: Line, n: nat, m: Line)
    requires Shows(font, t, base, l) && m.Text() == l.Text()
    ensures t.Valid() && Complete(Repeat(BS, n))
    ensures Shows(font, Write(font, t, Repeat(BS, n)), base, m)
            <==> MoveBack(t, n).col == |base| + font.Width(m.left)
  {
    hide Write, Complete;
    ShowsValid(font, t, base, l);
    WriteBack(font, t, n);
  }

  lemma MoveLeftSync(font: Font, t: Screen, base: seq<Cell>, l: Line)
    requires font.Valid() && Shows(font, t, base, l)
    ensures t.Valid() && Complete(EchoOf(font, l, MoveLeft))
    ensures Shows(font, Write(font, t, EchoOf(font, l, MoveLeft)), base, Edited(l, MoveLeft))
            <==> !Drifts(font, base, l, MoveLeft)
  {
    hide Shows, Write, Complete;
    ShowsValid(font, t, base, l);
    WriteNothing(font, t);
    if l.left != [] {
      var r, kept := Last(l.left), Init(l.left);
      assert l.left == kept + [r];
      WidthAppend(font, kept, [r]);
      WidthOne(font, r);
      Assoc(kept, [r], l.right);
      StepBackShows(font, t, base, l, AtLeastOne(font.width(r)), Edited(l, MoveLeft));
    }
  }

  lemma MoveRightKeepsSync(font: Font, t: Screen, base: seq<Cell>, l: Line)
    requires font.Valid() && Shows(font, t, base, l) && AllPrintable(l.right)
    ensures t.Valid() && Complete(EchoOf(font, l, MoveRight))
    ensures Shows(font, Write(font, t, EchoOf(font, l, MoveRight)), base, Edited(l, MoveRight))
  {
    ShowsValid(font, t, base, l);
    if l.right != [] {
      var text := [l.right[0]];
      assert l.right == text + l.right[1..];
      EncodeAllOne(l.right[0]);
      WriteText(font, t, text);
      AdvanceShows(font, t, base, l.left, text, l.right[1..]);
    }
  }

  lemma MoveHomeKeepsSync(font: Font, t: Screen, base: seq<Cell>, l: Line)
    requires font.Valid() && Shows(font, t, base, l)
    ensures t.Valid() && Complete(EchoOf(font, l, MoveHome))
    ensures Shows(font, Write(font, t, EchoOf(font, l, MoveHome)), base, Edited(l, MoveHome))
  {
    hide Shows, Write, Complete;
    ShowsValid(font, t, base, l);
    assert Edited(l, MoveHome).Text() == l.Text();
    StepBackShows(font, t, base, l, font.Width(l.left), Edited(l, MoveHome));
  }

  lemma MoveEndKeepsSync(font: Font, t: Screen, base: seq<Cell>, l: Line)
    requires font.Valid() && Shows(font, t, base, l) && AllPrintable(l.right)
    ensures t.Valid() && Complete(EchoOf(font, l, MoveEnd))
    ensures Shows(font, Write(font, t, EchoOf(font, l, MoveEnd)), base, Edited(l, MoveEnd))
  {
    ShowsValid(font, t, base, l);
    WriteText(font, t, l.right);
    assert l.right == l.right + [];
    AdvanceShows(font, t, base, l.left, l.right, []);
  }

  lemma KillToStartKeepsSync(font: Font, t: Screen, base: seq<Cell>, l: Line)
    requires font.Valid() && Shows(font, t, base, l) && AllPrintable(l.right)
    ensures t.Valid() && Complete(EchoOf(font, l, KillToStart))
    ensures Shows(font, Write(font, t, EchoOf(font, l, KillToStart)), base, Edited(l, KillToStart))
  {
    hide Shows, Complete, Write, Redraw;
    ShowsValid(font, t, base, l);
    WriteNothing(font, t);
    if l.left != [] {
      assert l.left[0..] == l.left;
      CutKeepsSync(font, t, base, l, 0);
    }
  }

  lemma KillPrevWordKeepsSync(font: Font, t: Screen, base: seq<Cell>, l: Line)
    requires font.Valid() && Shows(font, t, base, l) && AllPrintable(l.right)
    ensures t.Valid() && Complete(EchoOf(font, l, KillPrevWord))
    ensures Shows(font, Write(font, t, EchoOf(font, l, KillPrevWord)), base, Edited(l, KillPrevWord))
  {
    hide Shows, Complete, Write, Redraw;
    ShowsValid(font, t, base, l);
    WriteNothing(font, t);
    if l.left != [] {
      CutKeepsSync(font, t, base, l, WordStart(l.left));
    }
  }

  lemma KillToEndKeepsSync(font: Font, t: Screen, base: seq<Cell>, l: Line)
    requires font.Valid() && Shows(font, t, base, l)
    ensures t.Valid() && Complete(EchoOf(font, l, KillToEnd))
    ensures Shows(font, Write(font, t, EchoOf(font, l, KillToEnd)), base, Edited(l, KillToEnd))
  {
    hide Shows, Complete, Write, Redraw;
    ShowsValid(font, t, base, l);
    var n := font.Width(l.right);
    assert l.left + [] == l.left;
    RedrawShows(font, t, base, l, l.left, l.right, 0, [], n, n, Line(l.left, []));
  }

  lemma EraseLine(font: Font, t: Screen, base: seq<Cell>, l: Line)
    requires font.Valid() && Shows(font, t, base, l)
    ensures var all := font.Width(l.Text());
      var erase := Redraw(font.Width(l.left), [], all, all);
      t.Valid() && Complete(erase) && Shows(font, Write(font, t, erase), base, EMPTY)
  {
    hide Shows, Complete, Write, Redraw;
    ShowsValid(font, t, base, l);
    var all := font.Width(l.Text());
    assert [] + l.Text() == l.Text();
    RedrawShows(font, t, base, l, [], l.Text(), font.Width(l.left), [], all, all, EMPTY);
  }

  lemma ReplaceKeepsSync(font: Font, t: Screen, base: seq<Cell>, l: Line, text: seq<Rune>)
    requires font.Valid() && Shows(font, t, base, l) && AllPrintable(text)
    ensures t.Valid() && Complete(EchoOf(font, l, Replace(text)))
    ensures Shows(font, Write(font, t, EchoOf(font, l, Replace(text))), base, Edited(l, Replace(text)))
  {
    hide Shows, Complete, Write, Redraw;
    EraseLine(font, t, base, l);
    var all := font.Width(l.Text());
    EraseThenType(font, t, base, Redraw(font.Width(l.left), [], all, all), text);
  }

  lemma EraseThenType(font: Font, t: Screen, base: seq<Cell>, erase: seq<Byte>, text: seq<Rune>)
    requires t.Valid() && Complete(erase) && Shows(font, Write(font, t, erase), base, EMPTY) && AllPrintable(text)
    ensures Complete(erase + EncodeAll(text))
    ensures Shows(font, Write(font, t, erase + EncodeAll(text)), base, Line(text, []))
  {
    hide Shows, Complete, Write, Redraw;
    TypeOnEmpty(font, Write(font, t, erase), base, text);
    WriteAppend(font, t, erase, EncodeAll(text));
  }

  lemma TypeOnEmpty(font: Font, t: Screen, base: seq<Cell>, text: seq<Rune>)
    requires Shows(font, t, base, EMPTY) && AllPrintable(text)
    ensures t.Valid() && Complete(EncodeAll(text))
    ensures Shows(font, Write(font, t, EncodeAll(text)), base, Line(text, []))
  {
    WriteText(font, t, text);
    assert t.row[..t.col] == base;
    assert Line(text, []).Text() == text;
    assert Put(t, font.Cells(text)).row[..|base + font.Cells(text)|] == base + font.Cells(text);
  }

  // ---- what the edits mean ----

  lemma {:induction false} DropRunIs(rs: seq<Rune>, i: nat, spaces: bool)
    requires i <= |rs|
    ensures var k := DropRun(rs, i, spaces);
      && (forall j | k <= j < i :: IsSpace(rs[j]) == spaces)
      && (k > 0 ==> IsSpace(rs[k - 1]) != spaces)
    decreases i
  {
    if i > 0 && IsSpace(rs[i - 1]) == spaces {
      DropRunIs(rs, i - 1, spaces);
    }
  }

  /** The word cut is a run of non-spaces, as long as it goes, and the spaces behind it, as many as there are. */
  lemma WordStartIs(rs: seq<Rune>) returns (m: nat)
    ensures WordStart(rs) <= m <= |rs|
    ensures forall j | m <= j < |rs| :: IsSpace(rs[j])
    ensures forall j | WordStart(rs) <= j < m :: !IsSpace(rs[j])
    ensures m > 0 ==> !IsSpace(rs[m - 1]) && WordStart(rs) < m
    ensures WordStart(rs) > 0 ==> IsSpace(rs[WordStart(rs) - 1])
  {
    m := DropRun(rs, |rs|, true);
    DropRunIs(rs, |rs|, true);
    DropRunIs(rs, m, false);
  }

  /** Motions leave the text alone and put the cursor where they say. */
  lemma MotionsMove(l: Line)
    ensures forall op | op in {MoveLeft, MoveRight, MoveHome, MoveEnd} :: Edited(l, op).Text() == l.Text()
    ensures |Edited(l, MoveHome).left| == 0 && |Edited(l, MoveEnd).right| == 0
    ensures |Edited(l, MoveLeft).left| == if |l.left| == 0 then 0 else |l.left| - 1
    ensures |Edited(l, MoveRight).right| == if |l.right| == 0 then 0 else |l.right| - 1
  {
    if l.left != [] {
      assert Init(l.left) + ([Last(l.left)] + l.right) == l.left + l.right;
    }
    if l.right != [] {
      assert l.left + [l.right[0]] + l.right[1..] == l.left + l.right;
    }
    assert l.left + l.right + [] == l.left + l.right;
  }

  /** Deleting undoes inserting, on either side of the cursor, and does nothing where nothing is. */
  lemma DeletingUndoes(l: Line, r: Rune)
    ensures Edited(Edited(l, InsertRune(r)), Backspace) == l
    ensures Edited(Edited(Edited(l, InsertRune(r)), MoveLeft), Delete) == l
    ensures Edited(l, InsertRune(r)).Text() == l.left + [r] + l.right
    ensures l.left == [] ==> Edited(l, Backspace) == l
    ensures l.right == [] ==> Edited(l, Delete) == l
  {
    var ins := Edited(l, InsertRune(r));
    assert Init(ins.left) == l.left && ([r] + l.right)[1..] == l.right;
  }

  /** The kills take what is on one side of the cursor and leave the other; the line is replaced whole. */
  lemma KillsTake(l: Line, text: seq<Rune>)
    ensures Edited(l, KillToStart).Text() == l.right && Edited(l, KillToStart).left == []
    ensures Edited(l, KillToEnd).Text() == l.left && Edited(l, KillToEnd).right == []
    ensures Edited(l, KillPrevWord).right == l.right && Edited(l, KillPrevWord).left <= l.left
    ensures |Edited(l, KillPrevWord).left| == WordStart(l.left)
    ensures Edited(l, Replace(text)).Text() == text && Edited(l, Replace(text)).right == []
  {
  }
}
