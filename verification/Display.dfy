/**
 The last row of the terminal: StepSync says which steps keep it in sync, RunSync which runs.
 */
module Display {
  import opened Utf8
  import opened Terminal
  import opened LineEdits
  import opened Basics

  datatype View = View(line: Line, masked: bool, prompt: seq<Byte>, screen: Screen)

  datatype Step =
    | Key(op: Op)
    | Bell
    | Extend(partial: nat, replacement: seq<Rune>)
    | Listing(listing: seq<Byte>, prompt: seq<Byte>)
    | Async(text: seq<Byte>, plainWidth: Option<nat>)
    | BareEnter(prompt: seq<Byte>)
    | SetMask(on: bool)
    | TakeLine
    | Output(text: seq<Byte>)
    | Prompt(prompt: seq<Byte>)
    | Cache(prompt: seq<Byte>)

  const NEWLINE: seq<Byte> := [CR, LF]

  /** What the prompt leaves on a fresh row. */
  function Base(font: Font, prompt: seq<Byte>): seq<Cell> {
    Write(font, FRESH, prompt).row
  }

  /** The prompt ends between tokens with the cursor right of everything it drew. */
  ghost predicate PromptOk(font: Font, prompt: seq<Byte>) {
    Complete(prompt) && var t := Write(font, FRESH, prompt); t.col == |t.row|
  }

  function Stars(n: nat): (rs: seq<Rune>)
    ensures |rs| == n
  {
    seq(n, _ => STAR)
  }

  /** The line as it is echoed: itself, or a star for each rune. */
  function Shown(line: Line, masked: bool): Line {
    if masked then Line(Stars(|line.left|), Stars(|line.right|)) else line
  }

  ghost predicate Synced(font: Font, v: View) {
    && PromptOk(font, v.prompt)
    && Shows(font, v.screen, Base(font, v.prompt), Shown(v.line, v.masked))
  }

  /** Only printable runes are in the line. */
  ghost predicate Ordinary(v: View) {
    AllPrintable(v.line.left) && AllPrintable(v.line.right)
  }

  // ---- the bytes of each step ----

  function MaskedEdit(l: Line, op: Op): Line {
    match op
    case InsertRune(r) => Line(l.left + l.right + [r], [])
    case Backspace => if l.Text() == [] then l else Line(Init(l.Text()), [])
    case _ => l
  }

  function MaskedEcho(l: Line, op: Op): seq<Byte> {
    match op
    case InsertRune(r) => [STAR]
    case Backspace => if l.Text() == [] then [] else RubOut()
    case _ => [BEL]
  }

  function RubOut(): seq<Byte> {
    [BS, SPACE, BS]
  }

  /** Motions and kills that have nothing to do ring the bell instead. */
  predicate BellsWhenEmpty(op: Op) {
    !op.InsertRune? && !op.Backspace? && !op.Replace?
  }

  function KeyEcho(font: Font, v: View, op: Op): seq<Byte> {
    if v.masked then MaskedEcho(v.line, op)
    else
      var echo := EchoOf(font, v.line, op);
      if echo == [] && BellsWhenEmpty(op) then [BEL] else echo
  }

  function RubOuts(n: nat): seq<Byte> {
    if n == 0 then [] else RubOut() + RubOuts(n - 1)
  }

  function EndsLine(text: seq<Byte>): bool {
    |text| >= 2 && text[|text| - 2..] == NEWLINE
  }

  function Body(text: seq<Byte>): seq<Byte> {
    if EndsLine(text) then text[..|text| - 2] else text
  }

  function ErasePrefix(plainWidth: Option<nat>): seq<Byte> {
    match plainWidth
    case None => [CR, ESC, 0x5B, 0x4B]
    case Some(w) => [CR] + Repeat(SPACE, if w == 0 then 80 else w) + [CR]
  }

  /** Erase the row, the text, a line end unless it has one, prompt and input again. */
  function AsyncBytes(v: View, text: seq<Byte>, plainWidth: Option<nat>): seq<Byte> {
    ErasePrefix(plainWidth)
    + (if EndsLine(text) then text else text + NEWLINE)
    + v.prompt
    + EncodeAll(Shown(v.line, v.masked).Text())
  }

  function StepBytes(font: Font, v: View, step: Step): seq<Byte> {
    match step
    case Key(op) => KeyEcho(font, v, op)
    case Bell => [BEL]
    case Extend(partial, replacement) =>
      var gone := v.line.left[|v.line.left| - Min(partial, |v.line.left|)..];
      RubOuts(font.Width(gone)) + EncodeAll(replacement)
    case Listing(listing, prompt) => NEWLINE + listing + prompt + EncodeAll(v.line.Text())
    case Async(text, plainWidth) => AsyncBytes(v, text, plainWidth)
    case BareEnter(prompt) => NEWLINE + prompt
    case SetMask(on) => []
    case TakeLine => []
    case Output(text) => text
    case Prompt(prompt) => prompt
    case Cache(prompt) => []
  }

  function Min(a: nat, b: nat): nat {
    if a < b then a else b
  }

  function StepLine(v: View, step: Step): Line {
    match step
    case Key(op) => if v.masked then MaskedEdit(v.line, op) else Edited(v.line, op)
    case Extend(partial, replacement) =>
      Line(v.line.left[..|v.line.left| - Min(partial, |v.line.left|)] + replacement, [])
    case TakeLine => EMPTY
    case _ => v.line
  }

  /** An empty new prompt is not cached, but by the dispatcher's own prompt step. */
  function StepPrompt(v: View, step: Step): seq<Byte> {
    match step
    case Listing(_, prompt) => if prompt == [] then v.prompt else prompt
    case BareEnter(prompt) => if prompt == [] then v.prompt else prompt
    case Prompt(prompt) => prompt
    case Cache(prompt) => prompt
    case _ => v.prompt
  }

  function Next(font: Font, v: View, step: Step): (v': View)
    requires v.screen.Valid()
    ensures v'.screen.Valid()
  {
    View(StepLine(v, step),
         if step.SetMask? then step.on else v.masked,
         StepPrompt(v, step),
         Write(font, v.screen, StepBytes(font, v, step)))
  }

  /** Text and sequences that draw nothing: no control character moves the cursor or erases. */
  predicate Ink(bs: seq<Byte>)
    decreases |bs|
  {
    bs == [] ||
    var first := FirstToken(bs);
    && first.Some? && (first.value.0.Print? || first.value.0.Silent?)
    && Ink(bs[first.value.1..])
  }

  /** Whole lines of anything, then ink. */
  ghost predicate Broken(text: seq<Byte>, k: nat) {
    k <= |text| && EndsLine(text[..k]) && Complete(Body(text[..k])) && Ink(text[k..])
  }

  ghost predicate Drawn(text: seq<Byte>) {
    Ink(text) || exists k: nat :: Broken(text, k)
  }

  /**
   The guards under which the session takes each step, and the form of the texts it is
   given.
   */
  ghost predicate Enabled(font: Font, v: View, step: Step) {
    match step
    case Key(op) => OpPrintable(op)
    case Bell => true
    case Extend(partial, replacement) =>
      !v.masked && v.line.right == [] && partial <= |v.line.left| && AllPrintable(replacement)
    case Listing(listing, prompt) =>
      !v.masked && v.line.right == [] && EndsLine(listing) && Complete(Body(listing)) && PromptOk(font, prompt)
    case Async(text, plainWidth) => Complete(Body(text))
    case BareEnter(prompt) => v.line.Text() == [] && PromptOk(font, prompt)
    case SetMask(on) => true
    case TakeLine => true
    case Output(text) => Drawn(text)
    case Prompt(prompt) => PromptOk(font, prompt) && (IsFresh(v.screen) || Drawn(prompt))
    case Cache(prompt) => PromptOk(font, prompt)
  }

  /** Masked typing goes to the end of the line and needs the cursor there; the one exception is a line of one rune. */
  predicate MaskedKeeps(base: seq<Cell>, l: Line, op: Op) {
    match op
    case InsertRune(r) => l.right == []
    case Backspace => l.right == [] || (base == [] && |l.Text()| == 1)
    case _ => true
  }

  /**
   Put at the cursor on a row that shows the line from its start, the cells of the prompt
   look as if they came before the line: the left part looks the same in either order,
   the right part is blank and the row long enough for it.
   */
  predicate Behind(font: Font, length: nat, prompt: seq<Cell>, l: Line) {
    prompt == []
    || (&& font.Cells(l.left) + prompt == prompt + font.Cells(l.left)
        && font.Cells(l.right) == Blanks(font.Width(l.right))
        && (font.Width(l.right) > 0 ==> |prompt| + font.Width(l.left) + font.Width(l.right) <= length))
  }

  /** The condition, checked before the step, under which it keeps the row in sync. */
  predicate Keeps(font: Font, v: View, step: Step) {
    match step
    case Key(op) =>
      if v.masked then MaskedKeeps(Base(font, v.prompt), v.line, op)
      else !Drifts(font, Base(font, v.prompt), v.line, op)
    case Async(text, plainWidth) => font.Width(Shown(v.line, v.masked).right) == 0
    case Listing(_, prompt) => prompt == [] ==> Base(font, v.prompt) == []
    case BareEnter(prompt) => prompt == [] ==> Base(font, v.prompt) == []
    case SetMask(on) => on == v.masked || Shown(v.line, true) == v.line
    case TakeLine =>
      var l := Shown(v.line, v.masked);
      font.Width(l.left) == 0 && font.Cells(l.Text()) == Blanks(font.Width(l.Text()))
    case Output(text) =>
      var l := Shown(v.line, v.masked);
      if Ink(text) then Base(font, text) == []
      else Base(font, text) == Base(font, v.prompt) + font.Cells(l.Text()) && font.Width(l.right) == 0
    case Prompt(prompt) =>
      var l := Shown(v.line, v.masked);
      if Ink(prompt) then Base(font, v.prompt) == [] && Behind(font, |v.screen.row|, Base(font, prompt), l)
      else font.Width(l.Text()) == 0
    case Cache(prompt) => Base(font, prompt) == Base(font, v.prompt)
    case _ => true
  }

  // ---- fresh rows ----

  lemma BodyEndsLine(font: Font, t: Screen, text: seq<Byte>)
    requires t.Valid() && Complete(Body(text))
    ensures var full := if EndsLine(text) then text else text + NEWLINE;
      Complete(full) && IsFresh(Write(font, t, full))
  {
    hide Complete, Write;
    var body := Body(text);
    WriteNewline(font, Write(font, t, body));
    WriteAppend(font, t, body, NEWLINE);
    assert EndsLine(text) ==> text == body + NEWLINE;
  }

  lemma PromptOnFresh(font: Font, prompt: seq<Byte>)
    requires PromptOk(font, prompt)
    ensures Shows(font, Write(font, FRESH, prompt), Base(font, prompt), EMPTY)
  {
    var t := Write(font, FRESH, prompt);
    assert Blanks(0) == [];
    assert t.row == Base(font, prompt) + [] + Blanks(0);
  }

  /** Prompt and text written on a fresh row are shown with the cursor at the end. */
  lemma RepaintShows(font: Font, prompt: seq<Byte>, text: seq<Rune>)
    requires PromptOk(font, prompt) && AllPrintable(text)
    ensures Complete(prompt + EncodeAll(text))
    ensures Shows(font, Write(font, FRESH, prompt + EncodeAll(text)), Base(font, prompt), Line(text, []))
  {
    hide Complete, Write, Shows;
    PromptOnFresh(font, prompt);
    WriteAppend(font, FRESH, prompt, EncodeAll(text));
    TypeOnEmpty(font, Write(font, FRESH, prompt), Base(font, prompt), text);
  }

  /** What a row shows does not depend on the rows above. */
  lemma ShowsOnly(font: Font, t: Screen, u: Screen, base: seq<Cell>, l: Line)
    requires t.row == u.row && t.col == u.col
    ensures Shows(font, t, base, l) <==> Shows(font, u, base, l)
  {
  }

  lemma FreshLooks(font: Font, t: Screen, bs: seq<Byte>)
    requires IsFresh(t)
    ensures t.Valid()
    ensures Write(font, t, bs).row == Write(font, FRESH, bs).row && Write(font, t, bs).col == Write(font, FRESH, bs).col
  {
    hide Write;
    WriteFresh(font, t, bs);
  }

  /** The bytes end between tokens and leave a fresh row. */
  ghost predicate Clears(font: Font, t: Screen, clear: seq<Byte>) {
    t.Valid() && Complete(clear) && IsFresh(Write(font, t, clear))
  }

  /** Whatever a fresh row is made to show, it shows behind anything that leaves one. */
  lemma ShowsAfter(font: Font, t: Screen, clear: seq<Byte>, bs: seq<Byte>, base: seq<Cell>, l: Line)
    requires Clears(font, t, clear)
    requires Shows(font, Write(font, FRESH, bs), base, l)
    ensures Shows(font, Write(font, t, clear + bs), base, l)
  {
    hide Complete, Write, Shows, PromptOk, Base, EncodeAll;
    WriteAppend(font, t, clear, bs);
    FreshLooks(font, Write(font, t, clear), bs);
    ShowsOnly(font, Write(font, FRESH, bs), Write(font, t, clear + bs), base, l);
  }

  /** Anything that leaves a fresh row, then prompt and text. */
  lemma RepaintAfter(font: Font, t: Screen, clear: seq<Byte>, prompt: seq<Byte>, text: seq<Rune>)
    requires Clears(font, t, clear)
    requires PromptOk(font, prompt) && AllPrintable(text)
    ensures Shows(font, Write(font, t, clear + prompt + EncodeAll(text)), Base(font, prompt), Line(text, []))
  {
    hide Complete, Write, Shows, PromptOk, Base, EncodeAll, Clears;
    RepaintShows(font, prompt, text);
    ShowsAfter(font, t, clear, prompt + EncodeAll(text), Base(font, prompt), Line(text, []));
    Assoc(clear, prompt, EncodeAll(text));
  }

  lemma ErasePrefixComplete(font: Font, plainWidth: Option<nat>)
    requires font.Valid()
    ensures Complete(ErasePrefix(plainWidth))
  {
    var t := FRESH;
    match plainWidth
    case None =>
      var bs := ErasePrefix(None);
      var rest: seq<Byte> := [ESC, 0x5B, 0x4B];
      assert bs[1..] == rest;
      assert FinalByte(rest, 2) == Some(2);
      assert FirstToken(rest) == Some((EraseRight, 3));
      assert rest[3..] == [];
      assert Complete(rest);
      assert FirstToken(bs) == Some((Return, 1));
    case Some(w) =>
      var n := if w == 0 then 80 else w;
      assert Complete([CR]);
      WriteBlanks(font, t, n);
      WriteAppend(font, t, [CR], Repeat(SPACE, n));
      WriteAppend(font, t, [CR] + Repeat(SPACE, n), [CR]);
  }

  /**
   Whatever the terminal showed before, a write from another goroutine leaves the
   cached prompt and the whole input line, cursor at its end.
   */
  lemma AsyncRepaints(font: Font, v: View, text: seq<Byte>, plainWidth: Option<nat>)
    requires font.Valid() && v.screen.Valid() && Ordinary(v) && PromptOk(font, v.prompt) && Complete(Body(text))
    ensures Shows(font, Write(font, v.screen, AsyncBytes(v, text, plainWidth)), Base(font, v.prompt),
                  Line(Shown(v.line, v.masked).Text(), []))
  {
    hide Complete, Write, Shows, ErasePrefix, EndsLine, Body, PromptOk;
    var prefix := ErasePrefix(plainWidth);
    var full := if EndsLine(text) then text else text + NEWLINE;
    ErasePrefixComplete(font, plainWidth);
    var t1 := Write(font, v.screen, prefix);
    BodyEndsLine(font, t1, text);
    WriteAppend(font, v.screen, prefix, full);
    assert AllPrintable(Shown(v.line, v.masked).Text());
    assert AllPrintable(Shown(v.line, v.masked).left) && AllPrintable(Shown(v.line, v.masked).right);
    RepaintAfter(font, v.screen, prefix + full, v.prompt, Shown(v.line, v.masked).Text());
  }

  /** A row showing the text with the cursor at its end shows any line of that text iff nothing is right of it. */
  lemma CursorAtEnd(font: Font, t: Screen, base: seq<Cell>, l: Line)
    requires Shows(font, t, base, Line(l.Text(), []))
    ensures Shows(font, t, base, l) <==> font.Width(l.right) == 0
  {
    assert Line(l.Text(), []).Text() == l.Text();
    WidthAppend(font, l.left, l.right);
  }

  // ---- single steps ----

  lemma AsyncSync(font: Font, v: View, text: seq<Byte>, plainWidth: Option<nat>)
    requires font.Valid() && v.screen.Valid() && Ordinary(v) && PromptOk(font, v.prompt) && Complete(Body(text))
    ensures Synced(font, Next(font, v, Async(text, plainWidth))) <==> Keeps(font, v, Async(text, plainWidth))
  {
    hide Complete, Write, Shows, AsyncBytes, PromptOk;
    AsyncRepaints(font, v, text, plainWidth);
    var l := Shown(v.line, v.masked);
    CursorAtEnd(font, Write(font, v.screen, AsyncBytes(v, text, plainWidth)), Base(font, v.prompt), l);
  }

  lemma BareEnterSync(font: Font, v: View, prompt: seq<Byte>)
    requires v.screen.Valid() && PromptOk(font, v.prompt) && PromptOk(font, prompt) && v.line.Text() == []
    ensures Synced(font, Next(font, v, BareEnter(prompt))) <==> Keeps(font, v, BareEnter(prompt))
  {
    hide Complete, Write;
    WriteNewline(font, v.screen);
    WriteAppend(font, v.screen, NEWLINE, prompt);
    var t := Write(font, v.screen, NEWLINE);
    WriteFresh(font, t, prompt);
    assert Shown(v.line, v.masked) == EMPTY by {
      assert v.line == EMPTY;
      assert Stars(0) == [];
    }
    if prompt == [] {
      WriteNothing(font, t);
      assert Shows(font, t, Base(font, v.prompt), EMPTY) <==> Base(font, v.prompt) == [];
    } else {
      PromptOnFresh(font, prompt);
      ShowsOnly(font, Write(font, FRESH, prompt), Write(font, t, prompt), Base(font, prompt), EMPTY);
    }
  }

  lemma ListingSync(font: Font, v: View, listing: seq<Byte>, prompt: seq<Byte>)
    requires v.screen.Valid() && Ordinary(v) && PromptOk(font, v.prompt)
    requires Enabled(font, v, Listing(listing, prompt))
    ensures Synced(font, Next(font, v, Listing(listing, prompt))) <==> Keeps(font, v, Listing(listing, prompt))
  {
    hide Complete, Write, Shows, PromptOk, EndsLine, Body;
    var l := v.line;
    var text := l.Text();
    assert text == l.left && l == Line(text, []);
    WriteNewline(font, v.screen);
    BodyEndsLine(font, Write(font, v.screen, NEWLINE), listing);
    WriteAppend(font, v.screen, NEWLINE, listing);
    var clear := NEWLINE + listing;
    RepaintAfter(font, v.screen, clear, prompt, text);
    if prompt == [] {
      BaseEmpty(font);
      var t := Write(font, v.screen, clear + prompt + EncodeAll(text));
      SameCellsSameBase(font, t, [], Base(font, v.prompt), l);
    }
  }

  lemma BaseEmpty(font: Font)
    ensures Base(font, []) == []
  {
  }

  /** The cursor tells how wide the prompt is. */
  lemma SameCellsSameBase(font: Font, t: Screen, a: seq<Cell>, b: seq<Cell>, l: Line)
    requires Shows(font, t, a, l) && a == []
    ensures Shows(font, t, b, l) <==> b == []
  {
  }

  /** One "back, blank, back" per cell takes the cells of `gone` off the end of the row. */
  lemma {:induction false} RubOutsBack(font: Font, t: Screen, front: seq<Cell>, gone: seq<Cell>)
    requires font.Valid()
    requires ShowsCells(t, front + gone, |front + gone|)
    ensures t.Valid() && Complete(RubOuts(|gone|))
    ensures ShowsCells(Write(font, t, RubOuts(|gone|)), front, |front|)
    decreases |gone|
  {
    hide Write, Complete;
    if gone == [] {
      WriteNothing(font, t);
      assert front + gone == front;
    } else {
      hide ShowsCells;
      var fewer, last := gone[..|gone| - 1], [gone[|gone| - 1]];
      assert gone == fewer + last;
      assert front + fewer + last == front + (fewer + last);
      RubOutOne(font, t, front + fewer, last);
      RubOutsBack(font, Write(font, t, RubOut()), front, fewer);
      WriteAppend(font, t, RubOut(), RubOuts(|fewer|));
    }
  }

  lemma RubOutOne(font: Font, t: Screen, front: seq<Cell>, last: seq<Cell>)
    requires font.Valid() && |last| == 1
    requires ShowsCells(t, front + last, |front + last|)
    ensures t.Valid() && Complete(RubOut())
    ensures ShowsCells(Write(font, t, RubOut()), front, |front|)
  {
    hide Write, Complete;
    RubOutWrites(font, t);
    OverwriteCells(t, front, last, 1, [], 1, 1);
    assert front + [] == front && [] + Blanks(1) == Blanks(1);
  }

  lemma RubOutWrites(font: Font, t: Screen)
    requires font.Valid() && t.Valid()
    ensures Complete(RubOut())
    ensures Write(font, t, RubOut()) == MoveBack(Put(MoveBack(t, 1), Blanks(1)), 1)
  {
    WriteRedraw(font, t, 1, [], 1, 1);
    assert Redraw(1, [], 1, 1) == RubOut();
    assert font.Cells([]) + Blanks(1) == Blanks(1);
  }

  lemma ExtendSync(font: Font, v: View, partial: nat, replacement: seq<Rune>)
    requires font.Valid() && v.screen.Valid() && Ordinary(v) && Synced(font, v)
    requires Enabled(font, v, Extend(partial, replacement))
    ensures Synced(font, Next(font, v, Extend(partial, replacement)))
  {
    hide Write, Complete, PromptOk;
    var base := Base(font, v.prompt);
    var k := |v.line.left| - partial;
    var kept, gone := v.line.left[..k], v.line.left[k..];
    assert v.line.left == kept + gone && v.line.Text() == v.line.left;
    ShowsValid(font, v.screen, base, v.line);
    ExtendShows(font, v.screen, base, kept, gone, replacement);
  }

  lemma ExtendShows(font: Font, t: Screen, base: seq<Cell>, kept: seq<Rune>, gone: seq<Rune>, replacement: seq<Rune>)
    requires font.Valid() && AllPrintable(replacement)
    requires Shows(font, t, base, Line(kept + gone, []))
    ensures t.Valid()
    ensures Shows(font, Write(font, t, RubOuts(font.Width(gone)) + EncodeAll(replacement)), base,
                  Line(kept + replacement, []))
  {
    hide *;
    EndsWith(font, t, base, kept, gone);
    RubOutsBack(font, t, base + font.Cells(kept), font.Cells(gone));
    WriteAppend(font, t, RubOuts(font.Width(gone)), EncodeAll(replacement));
    TypeAtEnd(font, Write(font, t, RubOuts(font.Width(gone))), base, kept, replacement);
  }

  lemma EndsWith(font: Font, t: Screen, base: seq<Cell>, kept: seq<Rune>, gone: seq<Rune>)
    requires Shows(font, t, base, Line(kept + gone, []))
    ensures var front := base + font.Cells(kept);
      ShowsCells(t, front + font.Cells(gone), |front + font.Cells(gone)|)
  {
    hide ShowsCells;
    assert kept + gone + [] == kept + gone;
    CellsSplit(font, base, kept, gone);
  }

  /** Text typed at the end of a row is shown after it. */
  lemma TypeAtEnd(font: Font, t: Screen, base: seq<Cell>, kept: seq<Rune>, text: seq<Rune>)
    requires AllPrintable(text)
    requires ShowsCells(t, base + font.Cells(kept), |base + font.Cells(kept)|)
    ensures t.Valid() && Complete(EncodeAll(text))
    ensures Shows(font, Write(font, t, EncodeAll(text)), base, Line(kept + text, []))
  {
    hide Write, Complete;
    var front := base + font.Cells(kept);
    assert t.row[..|front|] == front;
    assert Shows(font, t, front, EMPTY);
    TypeOnEmpty(font, t, front, text);
    var t' := Write(font, t, EncodeAll(text));
    CellsSplit(font, base, kept, text);
    assert Line(kept + text, []).Text() == kept + text;
    assert Line(text, []).Text() == text;
    WidthAppend(font, kept, text);
  }

  lemma StarsMore(n: nat)
    ensures Stars(n + 1) == Stars(n) + [STAR]
  {
  }

  lemma MaskedKeySync(font: Font, v: View, op: Op)
    requires font.Valid() && Ordinary(v) && Synced(font, v) && v.masked
    ensures v.screen.Valid()
    ensures Synced(font, Next(font, v, Key(op))) <==> Keeps(font, v, Key(op))
  {
    hide Write, Complete, PromptOk, Shows, Ordinary;
    ShowsValid(font, v.screen, Base(font, v.prompt), Shown(v.line, true));
    if !op.InsertRune? && !op.Backspace? {
      BellIsSilent(font, v.screen);
    } else if v.line.right == [] {
      MaskedAtEnd(font, v, op);
    } else {
      MaskedInside(font, v, op);
    }
  }

  lemma MaskedAtEnd(font: Font, v: View, op: Op)
    requires font.Valid() && Synced(font, v) && v.masked && v.screen.Valid()
    requires v.line.right == [] && (op.InsertRune? || op.Backspace?)
    ensures Synced(font, Next(font, v, Key(op)))
  {
    hide Write, Complete, PromptOk;
    var base := Base(font, v.prompt);
    var n := |v.line.left|;
    var stars := Stars(n);
    assert v.line.Text() == v.line.left && Stars(0) == [];
    assert Shown(v.line, true) == Line(stars, []);
    if op.InsertRune? {
      StarsMore(n);
      assert EncodeAll([STAR]) == [STAR] by { EncodeAllOne(STAR); }
      assert stars + [] == stars;
      ExtendShows(font, v.screen, base, stars, [], [STAR]);
      assert RubOuts(0) + [STAR] == [STAR];
      assert Shown(Line(v.line.left + v.line.right + [op.r], []), true) == Line(Stars(n + 1), []);
    } else {
      if n == 0 {
        WriteNothing(font, v.screen);
      } else {
        StarsMore(n - 1);
        assert font.Width([STAR]) == 1 by { WidthOne(font, STAR); }
        ExtendShows(font, v.screen, base, Stars(n - 1), [STAR], []);
        assert RubOuts(1) + EncodeAll([]) == RubOut() by { assert RubOuts(0) == []; }
        assert Stars(n - 1) + [] == Stars(n - 1);
      }
    }
  }

  lemma {:induction false} StarsWidth(font: Font, n: nat)
    requires font.Valid()
    ensures font.Width(Stars(n)) == n
  {
    if n > 0 {
      assert Stars(n)[1..] == Stars(n - 1);
      StarsWidth(font, n - 1);
    }
  }

  /** With masked runes right of the cursor the star or the rub-out lands in the wrong place. */
  lemma MaskedInside(font: Font, v: View, op: Op)
    requires font.Valid() && Synced(font, v) && v.masked && v.screen.Valid()
    requires v.line.right != [] && (op.InsertRune? || op.Backspace?)
    ensures Synced(font, Next(font, v, Key(op))) <==> MaskedKeeps(Base(font, v.prompt), v.line, op)
  {
    hide Write, Complete, PromptOk, Shows;
    var base, n := Base(font, v.prompt), |v.line.Text()|;
    var t := v.screen;
    StarsWidth(font, |v.line.left|);
    ShowsValid(font, t, base, Shown(v.line, true));
    var next := Next(font, v, Key(op));
    if op.InsertRune? {
      assert next.line == Line(v.line.Text() + [op.r], []);
      StarColumn(font, next, n + 1);
      assert EncodeAll([STAR]) == [STAR] by { EncodeAllOne(STAR); }
      assert font.Width([STAR]) == 1 by { WidthOne(font, STAR); }
      WriteText(font, t, [STAR]);
    } else {
      assert next.line == Line(Init(v.line.Text()), []);
      StarColumn(font, next, n - 1);
      RubOutWrites(font, t);
      if base == [] && n == 1 {
        RubOnlyStar(font, v);
      }
    }
  }

  /** Where the cursor stands when masked input with the cursor at its end is in sync. */
  lemma StarColumn(font: Font, v: View, n: nat)
    requires font.Valid() && v.masked && v.line.right == [] && |v.line.left| == n
    ensures Synced(font, v) ==> v.screen.col == |Base(font, v.prompt)| + n
  {
    hide Complete, PromptOk, Shows;
    StarsWidth(font, n);
    if Synced(font, v) {
      ShowsValid(font, v.screen, Base(font, v.prompt), Shown(v.line, true));
    }
  }

  lemma RubOnlyStar(font: Font, v: View)
    requires font.Valid() && Synced(font, v) && v.masked && v.screen.Valid()
    requires v.line.left == [] && |v.line.right| == 1 && Base(font, v.prompt) == []
    ensures Synced(font, Next(font, v, Key(Backspace)))
  {
    hide Write, Complete, PromptOk;
    RubOutWrites(font, v.screen);
    StarsWidth(font, 1);
    assert Stars(0) == [] && Stars(0) + Stars(1) == Stars(1);
    var next := Next(font, v, Key(Backspace));
    assert next.line == EMPTY && next.screen.row == Blanks(|v.screen.row|);
  }

  lemma BellIsSilent(font: Font, t: Screen)
    requires t.Valid()
    ensures Write(font, t, [BEL]) == t
  {
    var bs: seq<Byte> := [BEL];
    assert bs[1..] == [];
    assert FirstToken(bs) == Some((Silent, 1));
  }

  lemma PlainKeySync(font: Font, v: View, op: Op)
    requires font.Valid() && Ordinary(v) && Synced(font, v) && !v.masked && OpPrintable(op)
    ensures v.screen.Valid()
    ensures Synced(font, Next(font, v, Key(op))) <==> Keeps(font, v, Key(op))
  {
    hide Write, Complete, PromptOk, Shows, Edited, EchoOf, Drifts;
    EditKeepsSync(font, v.screen, Base(font, v.prompt), v.line, op);
    BellIsSilent(font, v.screen);
    WriteNothing(font, v.screen);
  }

  lemma NextOrdinary(font: Font, v: View, step: Step)
    requires Ordinary(v) && v.screen.Valid() && Enabled(font, v, step)
    ensures Ordinary(Next(font, v, step))
  {
    hide Write, Complete, WordStart, StepBytes, PromptOk;
  }

  // ---- the theorems ----

  /** One step from a row in sync ends in sync exactly when its condition held. */
  lemma StepSync(font: Font, v: View, step: Step)
    requires font.Valid() && Ordinary(v) && Synced(font, v) && Enabled(font, v, step)
    ensures v.screen.Valid() && Ordinary(Next(font, v, step))
    ensures Synced(font, Next(font, v, step)) <==> Keeps(font, v, step)
  {
    hide Write, Complete, PromptOk, Shows, Edited, EchoOf, Drifts, MaskedEdit, MaskedEcho, AsyncBytes, Ordinary;
    ShowsValid(font, v.screen, Base(font, v.prompt), Shown(v.line, v.masked));
    NextOrdinary(font, v, step);
    match step
    case Key(op) =>
      if v.masked {
        MaskedKeySync(font, v, op);
      } else {
        PlainKeySync(font, v, op);
      }
    case Bell => BellIsSilent(font, v.screen);
    case Extend(partial, replacement) => ExtendSync(font, v, partial, replacement);
    case Listing(listing, prompt) => ListingSync(font, v, listing, prompt);
    case Async(text, plainWidth) => AsyncSync(font, v, text, plainWidth);
    case BareEnter(prompt) => BareEnterSync(font, v, prompt);
    case SetMask(on) => SetMaskSync(font, v, on);
    case TakeLine => TakeLineSync(font, v);
    case Output(text) => OutputSync(font, v, text);
    case Prompt(prompt) => PromptSync(font, v, prompt);
    case Cache(prompt) => CacheSync(font, v, prompt);
  }

  lemma {:induction false} StarCells(font: Font, n: nat)
    requires font.Valid()
    ensures |font.Cells(Stars(n))| == n && forall i | 0 <= i < n :: font.Cells(Stars(n))[i] == Part(STAR, 0)
  {
    if n > 0 {
      assert Stars(n)[1..] == Stars(n - 1);
      StarCells(font, n - 1);
    }
  }

  /** Only n stars show as n stars, in no more than n runes. */
  lemma {:induction false} StarsOnly(font: Font, text: seq<Rune>, n: nat)
    requires font.Valid() && |text| <= n <= |font.Cells(text)|
    requires forall i | 0 <= i < n :: font.Cells(text)[i] == Part(STAR, 0)
    ensures text == Stars(n)
  {
    if text != [] {
      var r, rest := text[0], text[1..];
      var w := font.width(r);
      assert font.Cells(text) == font.Glyph(r) + font.Cells(rest);
      if w > 0 {
        assert font.Cells(text)[0] == font.Glyph(r)[0];
        assert r == STAR;
      }
      forall i | 0 <= i < n - w
        ensures font.Cells(rest)[i] == Part(STAR, 0)
      {
        assert font.Cells(text)[i + w] == font.Cells(rest)[i];
      }
      StarsOnly(font, rest, n - w);
      assert Stars(n) == [STAR] + Stars(n - 1);
    } else {
      assert font.Cells(text) == [];
    }
  }

  /** A row shows the same text masked and unmasked only if the text is stars. */
  lemma MaskedLooksPlain(font: Font, t: Screen, base: seq<Cell>, l: Line)
    requires font.Valid() && Shows(font, t, base, l) && Shows(font, t, base, Shown(l, true))
    ensures Shown(l, true) == l
  {
    var text, n := l.Text(), |l.Text()|;
    var plain, stars := font.Cells(text), font.Cells(Stars(n));
    StarCells(font, n);
    assert Shown(l, true).Text() == Stars(n);
    if n > 0 {
      assert t.row[|base| + n - 1] == stars[n - 1] == Part(STAR, 0);
    }
    assert n <= |plain|;
    forall i | 0 <= i < n
      ensures plain[i] == Part(STAR, 0)
    {
      assert t.row[|base| + i] == stars[i];
    }
    StarsOnly(font, text, n);
    assert l.left == text[..|l.left|] && l.right == text[|l.left|..];
  }

  /** Flipping the mask keeps the row in sync exactly when it stays as it is or the line is stars. */
  lemma SetMaskSync(font: Font, v: View, on: bool)
    requires font.Valid() && Synced(font, v) && v.screen.Valid()
    ensures Synced(font, Next(font, v, SetMask(on))) <==> Keeps(font, v, SetMask(on))
  {
    hide Complete, PromptOk, Shows;
    WriteNothing(font, v.screen);
    var base := Base(font, v.prompt);
    if on != v.masked && Shows(font, v.screen, base, Shown(v.line, on)) {
      MaskedLooksPlain(font, v.screen, base, v.line);
    }
  }

  /** Taking the line keeps the row in sync only if it showed nothing. */
  lemma TakeLineSync(font: Font, v: View)
    requires font.Valid() && Synced(font, v) && v.screen.Valid()
    ensures Synced(font, Next(font, v, TakeLine)) <==> Keeps(font, v, TakeLine)
  {
    hide Complete, PromptOk, Write;
    WriteNothing(font, v.screen);
    var l, base, t := Shown(v.line, v.masked), Base(font, v.prompt), v.screen;
    var cells := font.Cells(l.Text());
    assert Shown(EMPTY, v.masked) == EMPTY by { assert Stars(0) == []; }
    assert EMPTY.Text() == [] && font.Cells([]) == [] && base + [] == base;
    assert t.row[|base|..|base| + |cells|] == cells;
  }

  /** Output that ends its line leaves a fresh row. */
  lemma OutputFresh(font: Font, v: View, text: seq<Byte>)
    requires v.screen.Valid() && EndsLine(text) && Complete(Body(text))
    ensures IsFresh(Next(font, v, Output(text)).screen)
  {
    BodyEndsLine(font, v.screen, text);
  }

  function InkCells(font: Font, bs: seq<Byte>): seq<Cell>
    requires Ink(bs)
    decreases |bs|
  {
    if bs == [] then []
    else
      var (token, n) := FirstToken(bs).value;
      (if token.Print? then font.Glyph(token.r) else []) + InkCells(font, bs[n..])
  }

  /** Ink overwrites its cells at the cursor, wherever that is. */
  lemma {:induction false} WriteInk(font: Font, t: Screen, bs: seq<Byte>)
    requires t.Valid() && Ink(bs)
    ensures Complete(bs) && Write(font, t, bs) == Put(t, InkCells(font, bs))
    decreases |bs|
  {
    if bs == [] {
      assert Put(t, []) == t;
    } else {
      var (token, n) := FirstToken(bs).value;
      WriteInk(font, Apply(font, t, token), bs[n..]);
      if token.Print? {
        PutPut(t, font.Glyph(token.r), InkCells(font, bs[n..]));
      } else {
        assert [] + InkCells(font, bs[n..]) == InkCells(font, bs[n..]);
      }
    }
  }

  lemma InkIsPrompt(font: Font, bs: seq<Byte>)
    requires Ink(bs)
    ensures InkCells(font, bs) == Base(font, bs)
    ensures PromptOk(font, bs) && Write(font, FRESH, bs) == Screen(Base(font, bs), |Base(font, bs)|, [])
  {
    hide Write, Complete;
    var cells := InkCells(font, bs);
    WriteInk(font, FRESH, bs);
    assert [] + cells + [] == cells;
  }

  /** What comes after whole lines is drawn on a fresh row. */
  lemma WriteBroken(font: Font, t: Screen, text: seq<Byte>, k: nat)
    requires t.Valid() && Broken(text, k)
    ensures PromptOk(font, text)
    ensures var t' := Write(font, t, text); t'.row == Base(font, text) && t'.col == |t'.row|
  {
    hide Write, Complete, EndsLine, Ink;
    var lines, ink := text[..k], text[k..];
    assert text == lines + ink;
    BodyEndsLine(font, t, lines);
    BodyEndsLine(font, FRESH, lines);
    WriteAppend(font, t, lines, ink);
    WriteAppend(font, FRESH, lines, ink);
    WriteFresh(font, Write(font, t, lines), ink);
    WriteFresh(font, Write(font, FRESH, lines), ink);
    InkIsPrompt(font, ink);
  }

  lemma {:induction false} TextIsInk(rs: seq<Rune>)
    requires AllPrintable(rs)
    ensures Ink(EncodeAll(rs))
  {
    if rs != [] {
      var r := rs[0];
      var e, rest := Encode(r), EncodeAll(rs[1..]);
      DecodeEncode(r, rest);
      EncodeShape(r);
      assert r in rs && (e + rest)[0] == e[0] && (e + rest)[|e|..] == rest;
      assert FirstToken(e + rest) == Some((Print(r), |e|));
      TextIsInk(rs[1..]);
    }
  }

  /** A row with the cursor at its end shows a line only if it is drawn to there. */
  lemma ExactRow(font: Font, t: Screen, base: seq<Cell>, l: Line)
    requires t.col == |t.row|
    ensures Shows(font, t, base, l) <==> t.row == base + font.Cells(l.Text()) && font.Width(l.right) == 0
  {
    WidthAppend(font, l.left, l.right);
    assert base + font.Cells(l.Text()) + Blanks(0) == base + font.Cells(l.Text());
  }

  /**
   Output that draws cells into the row loses it; output of whole lines leaves the row
   in sync exactly when what it draws last is the prompt and the line.
   */
  lemma OutputSync(font: Font, v: View, text: seq<Byte>)
    requires Synced(font, v) && v.screen.Valid() && Enabled(font, v, Output(text))
    ensures Synced(font, Next(font, v, Output(text))) <==> Keeps(font, v, Output(text))
  {
    hide Complete, PromptOk, Write, Shows, Broken, Ink;
    var l, base, drawn := Shown(v.line, v.masked), Base(font, v.prompt), Base(font, text);
    if Ink(text) {
      WriteInk(font, v.screen, text);
      InkIsPrompt(font, text);
      InkMoves(font, v.screen, base, l, drawn);
    } else {
      var k: nat :| Broken(text, k);
      WriteBroken(font, v.screen, text, k);
      ExactRow(font, Write(font, v.screen, text), base, l);
    }
  }

  lemma InkMoves(font: Font, t: Screen, base: seq<Cell>, l: Line, drawn: seq<Cell>)
    requires Shows(font, t, base, l) && t.Valid()
    ensures Shows(font, Put(t, drawn), base, l) <==> drawn == []
  {
    if drawn == [] {
      assert Put(t, []) == t;
    }
  }

  /** The prompt on a fresh row, or on the last line of what it draws itself. */
  lemma PromptOnFreshSync(font: Font, v: View, prompt: seq<Byte>)
    requires PromptOk(font, prompt) && v.screen.Valid()
    requires IsFresh(v.screen) || exists k: nat :: Broken(prompt, k)
    ensures Synced(font, Next(font, v, Prompt(prompt))) <==> font.Width(Shown(v.line, v.masked).Text()) == 0
  {
    hide Complete, Write, Shows, Broken;
    if IsFresh(v.screen) {
      WriteFresh(font, v.screen, prompt);
    } else {
      var k: nat :| Broken(prompt, k);
      WriteBroken(font, v.screen, prompt, k);
      WriteBroken(font, FRESH, prompt, k);
    }
    var base, l := Base(font, prompt), Shown(v.line, v.masked);
    ExactRow(font, Write(font, v.screen, prompt), base, l);
    assert base == base + font.Cells(l.Text()) <==> font.Width(l.Text()) == 0;
    WidthAppend(font, l.left, l.right);
  }

  function CellAt(cells: seq<Cell>, i: nat): Cell {
    if i < |cells| then cells[i] else Blank
  }

  /** Cells that stay when they move up by d, with blanks coming in, are blanks. */
  lemma {:induction false} ShiftsToBlank(cells: seq<Cell>, d: nat, i: nat)
    requires d >= 1 && i < |cells|
    requires forall j | 0 <= j < |cells| :: cells[j] == CellAt(cells, j + d)
    ensures cells[i] == Blank
    decreases |cells| - i
  {
    if i + d < |cells| {
      ShiftsToBlank(cells, d, i + d);
    }
  }

  predicate CellsBehind(length: nat, left: seq<Cell>, right: seq<Cell>, prompt: seq<Cell>) {
    && left + prompt == prompt + left && right == Blanks(|right|)
    && (right != [] ==> |prompt| + |left| + |right| <= length)
  }

  /** What is left of a row behind its first n cells. */
  function Tail(row: seq<Cell>, n: nat): seq<Cell> {
    if n <= |row| then row[n..] else []
  }

  /** Putting the prompt at the cursor of a row that shows left and right. */
  lemma PutRow(t: Screen, left: seq<Cell>, right: seq<Cell>, prompt: seq<Cell>)
    requires ShowsCells(t, left + right, |left|) && t.Valid()
    ensures var tail := Tail(t.row, |left| + |prompt|);
      && Put(t, prompt) == Screen(left + prompt + tail, |left| + |prompt|, t.above)
      && forall j | 0 <= j < |tail| :: tail[j] == CellAt(right, j + |prompt|)
  {
    assert t.row[..|left|] == left;
    var tail := Tail(t.row, |left| + |prompt|);
    forall j | 0 <= j < |tail|
      ensures tail[j] == CellAt(right, j + |prompt|)
    {
      assert tail[j] == t.row[|left| + |prompt| + j];
    }
  }

  /** A row cut in three shows three pieces of the same lengths and blanks only piece by piece. */
  lemma PieceByPiece(front: seq<Cell>, tail: seq<Cell>, shown: seq<Cell>, right: seq<Cell>, above: seq<seq<Cell>>)
    requires |front| == |shown|
    ensures ShowsCells(Screen(front + tail, |front|, above), shown + right, |front|)
            <==> front == shown && |right| <= |tail| && tail == right + Blanks(|tail| - |right|)
  {
    var row := front + tail;
    assert row[..|front|] == front && row[|front|..] == tail;
    if |right| <= |tail| {
      var whole := shown + right + Blanks(|tail| - |right|);
      assert whole[..|front|] == shown && whole[|front|..] == right + Blanks(|tail| - |right|);
    }
  }

  lemma TailShows(tail: seq<Cell>, right: seq<Cell>, d: nat)
    requires forall j | 0 <= j < |tail| :: tail[j] == CellAt(right, j + d)
    requires d >= 1 && |right| <= |tail|
    ensures tail == right + Blanks(|tail| - |right|) <==> right == Blanks(|right|)
  {
    if tail == right + Blanks(|tail| - |right|) {
      assert forall j | 0 <= j < |right| :: right[j] == tail[j];
      forall j | 0 <= j < |right|
        ensures right[j] == Blank
      {
        ShiftsToBlank(right, d, j);
      }
    }
  }

  lemma PutBehind(t: Screen, left: seq<Cell>, right: seq<Cell>, prompt: seq<Cell>)
    requires ShowsCells(t, left + right, |left|) && t.Valid() && prompt != []
    ensures ShowsCells(Put(t, prompt), prompt + (left + right), |prompt| + |left|)
            <==> CellsBehind(|t.row|, left, right, prompt)
  {
    PutRow(t, left, right, prompt);
    hide Put, ShowsCells;
    var tail := Tail(t.row, |left| + |prompt|);
    PieceByPiece(left + prompt, tail, prompt + left, right, t.above);
    assert prompt + (left + right) == prompt + left + right;
    if |right| <= |tail| {
      TailShows(tail, right, |prompt|);
    }
  }

  /**
   A prompt written over a row that already shows input, behind whatever base and with the
   cursor anywhere in it: the row is in sync exactly when there was no base and the prompt
   looks as if it came before the input.
   */
  lemma PromptAfterTyping(font: Font, v: View, base: seq<Cell>, prompt: seq<Byte>)
    requires v.screen.Valid() && Shows(font, v.screen, base, Shown(v.line, v.masked)) && Ink(prompt)
    ensures Synced(font, Next(font, v, Prompt(prompt)))
            <==> base == [] && Behind(font, |v.screen.row|, Base(font, prompt), Shown(v.line, v.masked))
  {
    hide Complete, Write, PromptOk, Shows, Ink, Put, Behind;
    WriteInk(font, v.screen, prompt);
    InkIsPrompt(font, prompt);
    InkOver(font, v.screen, base, Base(font, prompt), Shown(v.line, v.masked));
  }

  lemma InkOver(font: Font, t: Screen, base: seq<Cell>, drawn: seq<Cell>, l: Line)
    requires t.Valid() && Shows(font, t, base, l)
    ensures Shows(font, Put(t, drawn), drawn, l) <==> base == [] && Behind(font, |t.row|, drawn, l)
  {
    hide ShowsCells, Put;
    var left, right := font.Cells(l.left), font.Cells(l.right);
    PutColumn(font, t, base, l, drawn);
    WidthAppend(font, l.left, l.right);
    assert [] + font.Cells(l.Text()) == left + right;
    if drawn == [] {
      PutNothing(t);
    } else if base == [] {
      PutBehind(t, left, right, drawn);
    }
  }

  lemma PutNothing(t: Screen)
    requires t.Valid()
    ensures Put(t, []) == t
  {
  }

  lemma PutColumn(font: Font, t: Screen, base: seq<Cell>, l: Line, drawn: seq<Cell>)
    requires t.Valid() && Shows(font, t, base, l)
    ensures Shows(font, Put(t, drawn), drawn, l) ==> base == []
  {
  }

  /** Whatever it is written over, a prompt brings or keeps the row in sync exactly under its condition. */
  lemma PromptSync(font: Font, v: View, prompt: seq<Byte>)
    requires Synced(font, v) && Enabled(font, v, Prompt(prompt)) && v.screen.Valid()
    ensures Synced(font, Next(font, v, Prompt(prompt))) <==> Keeps(font, v, Prompt(prompt))
  {
    hide Complete, Write, PromptOk, Shows, Broken, Ink, Behind;
    if Ink(prompt) {
      PromptAfterTyping(font, v, Base(font, v.prompt), prompt);
    } else {
      PromptOnFreshSync(font, v, prompt);
    }
  }

  /** Caching another prompt, or none, keeps the row in sync exactly when it draws the same. */
  lemma CacheSync(font: Font, v: View, prompt: seq<Byte>)
    requires Synced(font, v) && v.screen.Valid() && PromptOk(font, prompt)
    ensures Synced(font, Next(font, v, Cache(prompt))) <==> Keeps(font, v, Cache(prompt))
  {
    hide Complete, Write, PromptOk;
    WriteNothing(font, v.screen);
    var a, b, t := Base(font, v.prompt), Base(font, prompt), v.screen;
    if Shows(font, t, b, Shown(v.line, v.masked)) {
      assert t.row[..|a|] == a && t.row[..|b|] == b;
    }
  }

  /** The view after a run of steps. */
  function Run(font: Font, v: View, steps: seq<Step>): (v': View)
    requires v.screen.Valid()
    ensures v'.screen.Valid()
    decreases |steps|
  {
    if steps == [] then v else Run(font, Next(font, v, steps[0]), steps[1..])
  }

  /** Every step of the run is enabled and meets its condition where it is taken. */
  ghost predicate Along(font: Font, v: View, steps: seq<Step>)
    requires v.screen.Valid()
    decreases |steps|
  {
    steps == []
    || (Enabled(font, v, steps[0]) && Keeps(font, v, steps[0]) && Along(font, Next(font, v, steps[0]), steps[1..]))
  }

  /** In every interleaving whose steps meet their conditions, the row is in sync throughout. */
  lemma {:induction false} RunSync(font: Font, v: View, steps: seq<Step>)
    requires font.Valid() && v.screen.Valid() && Ordinary(v) && Synced(font, v)
    requires Along(font, v, steps)
    ensures Synced(font, Run(font, v, steps)) && Ordinary(Run(font, v, steps))
    decreases |steps|
  {
    hide Synced, Ordinary, Enabled, Keeps, Next;
    if steps != [] {
      StepSync(font, v, steps[0]);
      RunSync(font, Next(font, v, steps[0]), steps[1..]);
    }
  }

  /**
   A write from another goroutine with no cells right of the cursor repairs any row,
   so from there on the run is in sync again.
   */
  lemma AsyncRepairs(font: Font, v: View, text: seq<Byte>, plainWidth: Option<nat>, steps: seq<Step>)
    requires font.Valid() && v.screen.Valid() && Ordinary(v) && PromptOk(font, v.prompt) && Complete(Body(text))
    requires Keeps(font, v, Async(text, plainWidth))
    requires Along(font, Next(font, v, Async(text, plainWidth)), steps)
    ensures Synced(font, Run(font, Next(font, v, Async(text, plainWidth)), steps))
  {
    hide Synced, Enabled, Keeps, Complete, PromptOk, StepBytes, Write;
    AsyncSync(font, v, text, plainWidth);
    assert Ordinary(Next(font, v, Async(text, plainWidth)));
    RunSync(font, Next(font, v, Async(text, plainWidth)), steps);
  }

  /** A step that leaves the input alone or takes all of it. */
  predicate TypesNothing(step: Step) {
    !step.Key? && !step.Extend?
  }

  lemma {:induction false} StaysEmpty(font: Font, v: View, steps: seq<Step>)
    requires v.screen.Valid() && v.line == EMPTY && forall step | step in steps :: TypesNothing(step)
    ensures Run(font, v, steps).line == EMPTY
    decreases |steps|
  {
    hide Write, StepBytes;
    if steps != [] {
      assert steps[0] in steps;
      StaysEmpty(font, Next(font, v, steps[0]), steps[1..]);
    }
  }

  /**
   A run goes on from line to line. Whatever the row was, and whatever is written, cached or
   masked once the line is taken: after an output that ends its line the prompt brings the
   row back in sync.
   */
  lemma LineCycle(font: Font, v: View, between: seq<Step>, text: seq<Byte>, prompt: seq<Byte>, steps: seq<Step>)
    requires font.Valid() && v.screen.Valid() && PromptOk(font, prompt) && EndsLine(text) && Complete(Body(text))
    requires forall step | step in between :: TypesNothing(step)
    requires var told := Next(font, Run(font, Next(font, v, TakeLine), between), Output(text));
      Along(font, Next(font, told, Prompt(prompt)), steps)
    ensures var told := Next(font, Run(font, Next(font, v, TakeLine), between), Output(text));
      Synced(font, Run(font, Next(font, told, Prompt(prompt)), steps))
  {
    hide Synced, Keeps, Write, Complete, PromptOk, Along, EndsLine, Body, Enabled;
    var taken := Next(font, v, TakeLine);
    StaysEmpty(font, taken, between);
    var answered := Run(font, taken, between);
    OutputFresh(font, answered, text);
    var told := Next(font, answered, Output(text));
    NothingShown(font, told);
    PromptOnFreshSync(font, told, prompt);
    RunSync(font, Next(font, told, Prompt(prompt)), steps);
  }

  lemma NothingShown(font: Font, v: View)
    requires v.line == EMPTY
    ensures Shown(v.line, v.masked) == EMPTY && font.Width(EMPTY.Text()) == 0 && Ordinary(v)
  {
    assert Stars(0) == [] && EMPTY.Text() == [];
  }

  /**
   A write from another goroutine between the answer and the prompt paints the cached prompt,
   and the new one comes behind it: in sync exactly when the cached one draws nothing.
   */
  lemma PromptAfterAsync(font: Font, v: View, text: seq<Byte>, plainWidth: Option<nat>, prompt: seq<Byte>)
    requires font.Valid() && v.screen.Valid() && v.line == EMPTY && PromptOk(font, v.prompt)
    requires Complete(Body(text)) && Ink(prompt)
    ensures Synced(font, Next(font, Next(font, v, Async(text, plainWidth)), Prompt(prompt)))
            <==> Base(font, v.prompt) == []
  {
    hide Write, Complete, PromptOk, Body, AsyncBytes, Shows, Synced, Ink;
    NothingShown(font, v);
    AsyncRepaints(font, v, text, plainWidth);
    var written := Next(font, v, Async(text, plainWidth));
    PromptAfterTyping(font, written, Base(font, v.prompt), prompt);
    BehindNothing(font, |written.screen.row|, Base(font, prompt));
  }

  lemma BehindNothing(font: Font, length: nat, prompt: seq<Cell>)
    ensures Behind(font, length, prompt, EMPTY)
  {
    assert [] + prompt == prompt + [];
  }

  /** Masked, runes go to the end of the line and come off it; nothing else edits it, and no rune of it is echoed. */
  lemma MaskedEdits(font: Font, v: View, op: Op)
    requires v.masked
    ensures op.InsertRune? ==> StepLine(v, Key(op)).Text() == v.line.Text() + [op.r]
    ensures op.Backspace? && v.line.Text() != [] ==>
      StepLine(v, Key(op)).Text() == v.line.Text()[..|v.line.Text()| - 1]
    ensures !op.InsertRune? && (op.Backspace? ==> v.line.Text() == []) ==> StepLine(v, Key(op)) == v.line
    ensures KeyEcho(font, v, op) in {[], [STAR], [BEL], [BS, SPACE, BS]}
  {
  }
}
