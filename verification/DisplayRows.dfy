/**
 What goes up the screen: which rows every step of a session leaves above the last one. The
 messages of other goroutines, the listings and the output stand there as they were sent, and
 nothing that follows takes them away.
 */
module DisplayRows {
  import opened Basics
  import opened Utf8
  import opened Terminal
  import opened LineEdits
  import opened Display

  // ---- text in lines ----

  /** Lines of text, each ended. */
  function Lines(ls: seq<seq<Rune>>): seq<Byte> {
    if ls == [] then [] else EncodeAll(ls[0]) + NEWLINE + Lines(ls[1..])
  }

  /** Lines of text of which the last is not ended. */
  function OpenLines(ls: seq<seq<Rune>>): seq<Byte>
    requires ls != []
  {
    Lines(ls[..|ls| - 1]) + EncodeAll(ls[|ls| - 1])
  }

  /** A text in lines, with the last line end or without; an empty last line counts only if ended or alone. */
  ghost predicate IsText(text: seq<Byte>, ls: seq<seq<Rune>>) {
    && ls != [] && (forall l | l in ls :: AllPrintable(l))
    && (text == Lines(ls) || (text == OpenLines(ls) && (|ls| == 1 || ls[|ls| - 1] != [])))
  }

  /** The rows the lines make. */
  function Rows(font: Font, ls: seq<seq<Rune>>): (rows: seq<seq<Cell>>)
    ensures |rows| == |ls|
  {
    seq(|ls|, i requires 0 <= i < |ls| => font.Cells(ls[i]))
  }

  /** A prompt may have lines of its own above its last. */
  function PromptRows(font: Font, prompt: seq<Byte>): seq<seq<Cell>> {
    Write(font, FRESH, prompt).above
  }

  lemma LineRow(font: Font, t: Screen, l: seq<Rune>)
    requires t.Valid() && AllPrintable(l)
    ensures Complete(EncodeAll(l) + NEWLINE)
    ensures Write(font, t, EncodeAll(l) + NEWLINE) == Screen([], 0, t.above + [Put(t, font.Cells(l)).row])
  {
    hide Write, Complete, Put;
    WriteText(font, t, l);
    WriteNewline(font, Put(t, font.Cells(l)));
    PutAbove(t, font.Cells(l));
    WriteAppend(font, t, EncodeAll(l), NEWLINE);
  }

  lemma PutAbove(t: Screen, cs: seq<Cell>)
    requires t.Valid()
    ensures Put(t, cs).above == t.above
    ensures IsFresh(t) ==> Put(t, cs).row == cs
  {
    assert IsFresh(t) ==> [] + cs + [] == cs;
  }

  /** Lines written from a fresh row stand above it afterwards, each as it is. */
  lemma {:induction false} LinesRows(font: Font, t: Screen, ls: seq<seq<Rune>>)
    requires IsFresh(t) && forall l | l in ls :: AllPrintable(l)
    ensures Complete(Lines(ls)) && Write(font, t, Lines(ls)) == Screen([], 0, t.above + Rows(font, ls))
    decreases |ls|
  {
    hide Write, Complete, Put;
    if ls == [] {
      WriteNothing(font, t);
      assert t.above + Rows(font, ls) == t.above;
    } else {
      var l, rest := ls[0], Lines(ls[1..]);
      assert l in ls;
      LineRow(font, t, l);
      PutAbove(t, font.Cells(l));
      var u := Screen([], 0, t.above + [font.Cells(l)]);
      LinesRows(font, u, ls[1..]);
      WriteAppend(font, t, EncodeAll(l) + NEWLINE, rest);
      assert t.above + [font.Cells(l)] + Rows(font, ls[1..]) == t.above + Rows(font, ls);
    }
  }

  /** From a row that is not fresh the first line is drawn over what stands there. */
  lemma LinesOver(font: Font, t: Screen, ls: seq<seq<Rune>>)
    requires t.Valid() && ls != [] && forall l | l in ls :: AllPrintable(l)
    ensures Complete(Lines(ls))
    ensures Write(font, t, Lines(ls))
         == Screen([], 0, t.above + [Put(t, font.Cells(ls[0])).row] + Rows(font, ls)[1..])
  {
    hide Write, Complete, Put;
    var l, rest := ls[0], Lines(ls[1..]);
    assert l in ls;
    LineRow(font, t, l);
    var u := Screen([], 0, t.above + [Put(t, font.Cells(l)).row]);
    LinesRows(font, u, ls[1..]);
    WriteAppend(font, t, EncodeAll(l) + NEWLINE, rest);
    assert Rows(font, ls)[1..] == Rows(font, ls[1..]);
  }

  lemma {:induction false} LinesAppend(a: seq<seq<Rune>>, l: seq<Rune>)
    ensures Lines(a + [l]) == Lines(a) + (EncodeAll(l) + NEWLINE)
  {
    if a == [] {
      assert [l][1..] == [] && EncodeAll(l) + NEWLINE + [] == EncodeAll(l) + NEWLINE;
      assert a + [l] == [l];
    } else {
      assert (a + [l])[1..] == a[1..] + [l];
      LinesAppend(a[1..], l);
      Assoc(EncodeAll(a[0]) + NEWLINE, Lines(a[1..]), EncodeAll(l) + NEWLINE);
    }
  }

  /** Only the line end itself ends a line. */
  lemma TextEnds(text: seq<Byte>, ls: seq<seq<Rune>>)
    requires IsText(text, ls)
    ensures (if EndsLine(text) then text else text + NEWLINE) == Lines(ls)
  {
    hide EncodeAll, Lines;
    var a, l := ls[..|ls| - 1], ls[|ls| - 1];
    assert ls == a + [l];
    LinesAppend(a, l);
    var before, bs := Lines(a), EncodeAll(l);
    Assoc(before, bs, NEWLINE);
    EndsInNewline(before + bs);
    if text != Lines(ls) {
      assert l in ls;
      PrintableNoFeed(l);
      if l == [] {
        NoRunes();
        assert text == [];
      } else {
        NotEmpty(l);
        OpenEnd(before, bs);
      }
    }
  }

  lemma EndsInNewline(bs: seq<Byte>)
    ensures EndsLine(bs + NEWLINE)
  {
    assert (bs + NEWLINE)[|bs|..] == NEWLINE;
  }

  lemma OpenEnd(before: seq<Byte>, bs: seq<Byte>)
    requires bs != [] && LF !in bs
    ensures !EndsLine(before + bs)
  {
    var text := before + bs;
    assert text[|text| - 1] == bs[|bs| - 1] && bs[|bs| - 1] in bs;
    assert |text| >= 2 ==> text[|text| - 2..][1] == text[|text| - 1];
    assert NEWLINE[1] == LF;
  }

  lemma NoRunes()
    ensures EncodeAll([]) == [] && Lines([]) == []
  {
  }

  lemma NotEmpty(l: seq<Rune>)
    requires l != []
    ensures EncodeAll(l) != []
  {
  }

  // ---- rows only go up ----

  lemma NextKeepsRows(font: Font, v: View, step: Step)
    requires v.screen.Valid()
    ensures v.screen.above <= Next(font, v, step).screen.above
  {
    hide Write, StepBytes;
    WriteAbove(font, v.screen, StepBytes(font, v, step));
  }

  /** Whatever a session does, no row that has gone up is changed. */
  lemma {:induction false} RunKeepsRows(font: Font, v: View, steps: seq<Step>)
    requires v.screen.Valid()
    ensures v.screen.above <= Run(font, v, steps).screen.above
    decreases |steps|
  {
    hide Next;
    if steps != [] {
      NextKeepsRows(font, v, steps[0]);
      RunKeepsRows(font, Next(font, v, steps[0]), steps[1..]);
    }
  }

  lemma MoreRows(font: Font, t: Screen, a: seq<Byte>, b: seq<Byte>)
    requires t.Valid() && Complete(a)
    ensures Write(font, t, a).above <= Write(font, t, a + b).above
  {
    hide Write, Complete;
    WriteAppend(font, t, a, b);
    WriteAbove(font, Write(font, t, a), b);
  }

  // ---- messages of other goroutines ----

  /** What is left of a row when it has been erased: nothing, or what stood beyond the blanks written over it. */
  function Cleared(row: seq<Cell>, plainWidth: Option<nat>): seq<Cell> {
    match plainWidth
    case None => []
    case Some(w) => var n := if w == 0 then 80 else w; Blanks(n) + Tail(row, n)
  }

  /** The rows of a message: its lines, the first over what was left of the row. */
  function MessageRows(font: Font, left: seq<Cell>, ls: seq<seq<Rune>>): (rows: seq<seq<Cell>>)
    requires ls != []
    ensures |rows| == |ls|
  {
    [font.Cells(ls[0]) + Tail(left, font.Width(ls[0]))] + Rows(font, ls)[1..]
  }

  /** On a terminal that can erase, they are the lines and nothing else. */
  lemma ErasedRows(font: Font, ls: seq<seq<Rune>>)
    requires ls != []
    ensures MessageRows(font, [], ls) == Rows(font, ls)
  {
    assert font.Cells(ls[0]) + [] == font.Cells(ls[0]);
    assert Rows(font, ls) == [font.Cells(ls[0])] + Rows(font, ls)[1..];
  }

  /** On one that cannot, the first line has only blanks behind it if the row was no wider than the terminal. */
  lemma PlainRows(font: Font, row: seq<Cell>, w: nat, ls: seq<seq<Rune>>)
    requires ls != [] && |row| <= (if w == 0 then 80 else w)
    ensures var n, first := if w == 0 then 80 else w, MessageRows(font, Cleared(row, Some(w)), ls)[0];
      first == font.Cells(ls[0]) + Blanks(if n < font.Width(ls[0]) then 0 else n - font.Width(ls[0]))
  {
  }

  lemma EraseWrites(font: Font, t: Screen, plainWidth: Option<nat>)
    requires font.Valid() && t.Valid()
    ensures Complete(ErasePrefix(plainWidth))
    ensures Write(font, t, ErasePrefix(plainWidth)) == Screen(Cleared(t.row, plainWidth), 0, t.above)
  {
    ErasePrefixComplete(font, plainWidth);
    match plainWidth
    case None =>
      var bs := ErasePrefix(None);
      var rest: seq<Byte> := [ESC, 0x5B, 0x4B];
      assert bs[1..] == rest && rest[3..] == [];
      assert FinalByte(rest, 2) == Some(2);
      assert FirstToken(rest) == Some((EraseRight, 3));
      assert Write(font, t.(col := 0), rest) == Screen([], 0, t.above);
    case Some(w) => PlainErase(font, t, if w == 0 then 80 else w);
  }

  lemma PlainErase(font: Font, t: Screen, n: nat)
    requires font.Valid() && t.Valid()
    ensures Write(font, t, [CR] + Repeat(SPACE, n) + [CR]) == Screen(Blanks(n) + Tail(t.row, n), 0, t.above)
  {
    var home := t.(col := 0);
    Carriage(font, t);
    WriteBlanks(font, home, n);
    WriteAppend(font, t, [CR], Repeat(SPACE, n));
    Carriage(font, Put(home, Blanks(n)));
    WriteAppend(font, t, [CR] + Repeat(SPACE, n), [CR]);
    assert [] + Blanks(n) + Tail(t.row, n) == Blanks(n) + Tail(t.row, n);
  }

  lemma Carriage(font: Font, t: Screen)
    requires t.Valid()
    ensures Complete([CR]) && Write(font, t, [CR]) == t.(col := 0)
  {
    assert [CR][1..] == [];
  }

  lemma PutAtStart(t: Screen, cs: seq<Cell>)
    requires t.col == 0
    ensures Put(t, cs).row == cs + Tail(t.row, |cs|)
  {
    assert [] + cs == cs;
  }

  /** The erase and the message with its line end, before prompt and input are painted again. */
  lemma MessageWritten(font: Font, t: Screen, text: seq<Byte>, ls: seq<seq<Rune>>, plainWidth: Option<nat>)
    requires font.Valid() && t.Valid() && IsText(text, ls)
    ensures var sent := ErasePrefix(plainWidth) + if EndsLine(text) then text else text + NEWLINE;
      && Complete(sent)
      && Write(font, t, sent)
         == Screen([], 0, t.above + MessageRows(font, Cleared(t.row, plainWidth), ls))
  {
    hide Write, Complete, ErasePrefix, EndsLine, Cleared, Put, Lines;
    TextEnds(text, ls);
    EraseWrites(font, t, plainWidth);
    var erased := Screen(Cleared(t.row, plainWidth), 0, t.above);
    LinesOver(font, erased, ls);
    PutAtStart(erased, font.Cells(ls[0]));
    WriteAppend(font, t, ErasePrefix(plainWidth), Lines(ls));
    assert t.above + [Put(erased, font.Cells(ls[0])).row] + Rows(font, ls)[1..]
           == t.above + MessageRows(font, Cleared(t.row, plainWidth), ls);
  }

  /**
   After a write from another goroutine the rows above are those there were, the lines of the
   message, and the rows of a prompt that has several.
   */
  lemma AsyncRows(font: Font, v: View, text: seq<Byte>, ls: seq<seq<Rune>>, plainWidth: Option<nat>)
    requires font.Valid() && v.screen.Valid() && IsText(text, ls)
    ensures var above := Next(font, v, Async(text, plainWidth)).screen.above;
      var sent := v.screen.above + MessageRows(font, Cleared(v.screen.row, plainWidth), ls);
      && sent <= above
      && (Ordinary(v) && PromptOk(font, v.prompt) ==> above == sent + PromptRows(font, v.prompt))
  {
    hide Write, Complete, ErasePrefix, EndsLine, Cleared, MessageRows, IsText, Ordinary, PromptOk;
    var full := if EndsLine(text) then text else text + NEWLINE;
    var sent, echo := ErasePrefix(plainWidth) + full, EncodeAll(Shown(v.line, v.masked).Text());
    MessageWritten(font, v.screen, text, ls, plainWidth);
    Assoc(sent, v.prompt, echo);
    MoreRows(font, v.screen, sent, v.prompt + echo);
    if Ordinary(v) && PromptOk(font, v.prompt) {
      ShownPrintable(v);
      WriteAppend(font, v.screen, sent, v.prompt + echo);
      PromptThenText(font, Write(font, v.screen, sent), v.prompt, Shown(v.line, v.masked).Text());
    }
  }

  lemma ShownPrintable(v: View)
    requires Ordinary(v)
    ensures AllPrintable(Shown(v.line, v.masked).Text())
  {
  }

  lemma PromptThenText(font: Font, t: Screen, prompt: seq<Byte>, rs: seq<Rune>)
    requires IsFresh(t) && PromptOk(font, prompt) && AllPrintable(rs)
    ensures Write(font, t, prompt + EncodeAll(rs)).above == t.above + PromptRows(font, prompt)
  {
    hide Write, Complete;
    WriteAppend(font, t, prompt, EncodeAll(rs));
    WriteFresh(font, t, prompt);
    PrintableNoFeed(rs);
    NoFeedNoRow(font, Write(font, t, prompt), EncodeAll(rs));
  }

  /**
   No message is lost, in any interleaving: wherever in a run it was sent, at the end its
   lines stand above, together and in order, behind the rows there were before it.
   */
  lemma NoMessageLost(font: Font, v: View, before: seq<Step>, text: seq<Byte>, ls: seq<seq<Rune>>,
                      plainWidth: Option<nat>, after: seq<Step>)
    requires font.Valid() && v.screen.Valid() && IsText(text, ls)
    ensures var met := Run(font, v, before).screen;
      var above := Run(font, Next(font, Run(font, v, before), Async(text, plainWidth)), after).screen.above;
      met.above + MessageRows(font, Cleared(met.row, plainWidth), ls) <= above
  {
    hide Next, IsText, Cleared, MessageRows;
    var w := Run(font, v, before);
    AsyncRows(font, w, text, ls, plainWidth);
    RunKeepsRows(font, Next(font, w, Async(text, plainWidth)), after);
  }

  // ---- listings, output, prompts ----

  lemma NewRow(font: Font, t: Screen, bs: seq<Byte>)
    requires t.Valid()
    ensures Write(font, t, NEWLINE + bs) == Write(font, Screen([], 0, t.above + [t.row]), bs)
  {
    hide Write;
    WriteNewline(font, t);
    WriteAppend(font, t, NEWLINE, bs);
  }

  /** The row that was edited goes up, the candidates stand below it, and the prompt's rows if it has several. */
  lemma ListingRows(font: Font, v: View, ls: seq<seq<Rune>>, prompt: seq<Byte>)
    requires v.screen.Valid() && forall l | l in ls :: AllPrintable(l)
    ensures var above := Next(font, v, Listing(Lines(ls), prompt)).screen.above;
      var sent := v.screen.above + [v.screen.row] + Rows(font, ls);
      && sent <= above
      && (Ordinary(v) && PromptOk(font, prompt) ==> above == sent + PromptRows(font, prompt))
  {
    hide Write, Complete, Ordinary, PromptOk, Lines;
    var t, text := Screen([], 0, v.screen.above + [v.screen.row]), EncodeAll(v.line.Text());
    assert NEWLINE + Lines(ls) + prompt + text == NEWLINE + (Lines(ls) + (prompt + text));
    NewRow(font, v.screen, Lines(ls) + (prompt + text));
    LinesRows(font, t, ls);
    MoreRows(font, t, Lines(ls), prompt + text);
    if Ordinary(v) && PromptOk(font, prompt) {
      PlainPrintable(v);
      WriteAppend(font, t, Lines(ls), prompt + text);
      PromptThenText(font, Write(font, t, Lines(ls)), prompt, v.line.Text());
    }
  }

  lemma PlainPrintable(v: View)
    requires Ordinary(v)
    ensures AllPrintable(v.line.Text())
  {
  }

  lemma BareEnterRows(font: Font, v: View, prompt: seq<Byte>)
    requires v.screen.Valid()
    ensures Next(font, v, BareEnter(prompt)).screen.above
         == v.screen.above + [v.screen.row] + PromptRows(font, prompt)
  {
    hide Write;
    NewRow(font, v.screen, prompt);
    WriteFresh(font, Screen([], 0, v.screen.above + [v.screen.row]), prompt);
  }

  /** Output in lines goes up line by line; the first is drawn where the cursor was. */
  lemma OutputRows(font: Font, v: View, ls: seq<seq<Rune>>)
    requires v.screen.Valid() && ls != [] && forall l | l in ls :: AllPrintable(l)
    ensures var t := Next(font, v, Output(Lines(ls))).screen;
      && IsFresh(t)
      && t.above == v.screen.above + [Put(v.screen, font.Cells(ls[0])).row] + Rows(font, ls)[1..]
      && (IsFresh(v.screen) ==> t.above == v.screen.above + Rows(font, ls))
  {
    hide Write, Complete;
    LinesOver(font, v.screen, ls);
    if IsFresh(v.screen) {
      LinesRows(font, v.screen, ls);
    }
  }

  // ---- what moves no row ----

  /** Editing, the bell, completing a word, the mask, taking the line and caching a prompt. */
  ghost predicate Stays(v: View, step: Step) {
    match step
    case Key(op) => Ordinary(v) && OpPrintable(op)
    case Extend(_, replacement) => AllPrintable(replacement)
    case Prompt(prompt) => Ink(prompt)
    case Bell => true
    case SetMask(_) => true
    case TakeLine => true
    case Cache(_) => true
    case _ => false
  }

  lemma RedrawNoFeed(back: nat, text: seq<Rune>, blank: nat, again: nat)
    requires AllPrintable(text)
    ensures LF !in Redraw(back, text, blank, again)
  {
    PrintableNoFeed(text);
    NoFeedIn(Repeat(BS, back), BS);
    NoFeedIn(Repeat(SPACE, blank), SPACE);
    NoFeedIn(Repeat(BS, again), BS);
  }

  lemma NoFeedIn(bs: seq<Byte>, b: Byte)
    requires b != LF && forall i | 0 <= i < |bs| :: bs[i] == b
    ensures LF !in bs
  {
  }

  lemma EchoNoFeed(font: Font, l: Line, op: Op)
    requires AllPrintable(l.left) && AllPrintable(l.right) && OpPrintable(op)
    ensures LF !in EchoOf(font, l, op)
  {
    hide Redraw, EncodeAll, Encode, DropRun;
    match op
    case InsertRune(r) => RedrawNoFeed(0, [r] + l.right, 0, font.Width(l.right));
    case Backspace =>
      if l.left != [] {
        var n := AtLeastOne(font.width(Last(l.left)));
        RedrawNoFeed(n, l.right, n, font.Width(l.right) + n);
      }
    case Delete =>
      if l.right != [] {
        var n := AtLeastOne(font.width(l.right[0]));
        RedrawNoFeed(0, l.right[1..], n, font.Width(l.right[1..]) + n);
      }
    case MoveLeft => NoFeedIn(EchoOf(font, l, op), BS);
    case MoveRight =>
      if l.right != [] {
        PrintableNoFeed([l.right[0]]);
        EncodeAllOne(l.right[0]);
      }
    case MoveHome => NoFeedIn(Repeat(BS, font.Width(l.left)), BS);
    case MoveEnd => PrintableNoFeed(l.right);
    case KillToStart =>
      RedrawNoFeed(font.Width(l.left), l.right, font.Width(l.left), font.Width(l.right) + font.Width(l.left));
    case KillToEnd => RedrawNoFeed(0, [], font.Width(l.right), font.Width(l.right));
    case KillPrevWord =>
      if l.left != [] {
        var n := font.Width(l.left[WordStart(l.left)..]);
        RedrawNoFeed(n, l.right, n, font.Width(l.right) + n);
      }
    case Replace(text) =>
      RedrawNoFeed(font.Width(l.left), [], font.Width(l.Text()), font.Width(l.Text()));
      PrintableNoFeed(text);
  }

  lemma {:induction false} RubOutsNoFeed(n: nat)
    ensures LF !in RubOuts(n)
  {
    if n > 0 {
      RubOutsNoFeed(n - 1);
    }
  }

  /** Keys, completions and the like move no row up; neither does a prompt without a line end. */
  lemma StaysPut(font: Font, v: View, step: Step)
    requires v.screen.Valid() && Stays(v, step)
    ensures Next(font, v, step).screen.above == v.screen.above
  {
    hide Write, EchoOf, Complete, Ink;
    var bs := StepBytes(font, v, step);
    match step
    case Key(op) =>
      EchoNoFeed(font, v.line, op);
      assert LF !in bs;
      NoFeedNoRow(font, v.screen, bs);
    case Extend(partial, replacement) =>
      RubOutsNoFeed(font.Width(v.line.left[|v.line.left| - Min(partial, |v.line.left|)..]));
      PrintableNoFeed(replacement);
      NoFeedNoRow(font, v.screen, bs);
    case Prompt(prompt) => WriteInk(font, v.screen, prompt);
    case _ => NoFeedNoRow(font, v.screen, bs);
  }
}
