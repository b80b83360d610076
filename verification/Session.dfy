/**
 The session: keystroke handlers, the byte-by-byte UTF-8 collector and the
 writers that share the terminal. Every method is one critical section; its
 contract names the `Display` step it performs, on well-formed input.

 What a stretch of bytes does is `Actions`, what a whole stream of input does is
 `StreamSteps`; the read loop performs exactly those. Bytes that UTF-8 never uses
 are the exception: they reach the buffer raw.
 */
module Sessions {
  import opened Utf8
  import opened Terminal
  import opened LineEdits
  import opened LineBuffers
  import opened Display
  import opened Basics

  datatype MotionKind = MotionHome | MotionEnd | MotionLeft | MotionRight | MotionDelete
  datatype KillKind = KillStart | KillEnd | KillWord

  function MotionOp(kind: MotionKind): Op {
    match kind
    case MotionHome => MoveHome
    case MotionEnd => MoveEnd
    case MotionLeft => MoveLeft
    case MotionRight => MoveRight
    case MotionDelete => Delete
  }

  function KillOp(kind: KillKind): Op {
    match kind
    case KillStart => KillToStart
    case KillEnd => KillToEnd
    case KillWord => KillPrevWord
  }

  /** What a byte outside escapes, commands, line ends and tabs makes the session do. */
  datatype Action = Nothing | Press(op: Op) | Raw(b: Byte)

  const IAC: Byte := 255
  const HT: Byte := 9

  predicate IsPlain(b: Byte) {
    b != IAC && b != ESC && b != CR && b != LF && b != HT
  }

  /** A continuation byte joins the pending sequence; a complete one yields its rune. */
  function Continue(pending: seq<Byte>, b: Byte): (seq<Byte>, Action) {
    if pending == [] || |pending| >= 4 then ([], Nothing)
    else
      var joined := pending + [b];
      var n := ExpectedLen(joined[0]);
      if n == 0 then ([], Nothing)
      else if |joined| < n then (joined, Nothing)
      else
        var (r, size) := Decode(joined[..n]);
        if r == RUNE_ERROR && size < n then ([], Nothing) else ([], Press(InsertRune(r)))
  }

  /** The bytes 128..255 that count as printable when read as a code point of their own. */
  predicate PrintableByte(b: Byte) {
    0x20 <= b < 0x7F || (0xA1 <= b && b != 0xAD)
  }

  function Classify(pending: seq<Byte>, b: Byte): (seq<Byte>, Action) {
    if 0x80 <= b <= 0xBF then Continue(pending, b)
    else if 0xC2 <= b <= 0xF4 then ([b], Nothing)
    else if b == BS || b == 0x7F then ([], Press(Backspace))
    else if b == 1 then ([], Press(MoveHome))
    else if b == 5 then ([], Press(MoveEnd))
    else if b == 21 then ([], Press(KillToStart))
    else if b == 11 then ([], Press(KillToEnd))
    else if b == 23 then ([], Press(KillPrevWord))
    else if 0x20 <= b < 0x7F then ([], Press(InsertRune(b)))
    else if PrintableByte(b) then ([], Raw(b))
    else ([], Nothing)
  }

  /** A sequence in progress: its lead byte announced more bytes than have come. */
  predicate InProgress(pending: seq<Byte>) {
    pending != [] ==> 0xC2 <= pending[0] <= 0xF4 && |pending| < ExpectedLen(pending[0])
  }

  lemma ClassifyInProgress(pending: seq<Byte>, b: Byte)
    requires InProgress(pending)
    ensures InProgress(Classify(pending, b).0) && |Classify(pending, b).0| <= 3
  {
  }

  /** Exactly the bytes that UTF-8 never uses are taken into the buffer raw. */
  lemma RawIsNeverUtf8(pending: seq<Byte>, b: Byte)
    ensures Classify(pending, b).1.Raw? <==> NeverInUtf8(b)
    ensures Classify(pending, b).1.Raw? ==> Classify(pending, b).1 == Raw(b)
  {
  }

  // ---- whole streams ----

  /** A rune a user can type: printable ASCII or anything beyond ASCII. */
  predicate Typable(r: Rune) {
    0x20 <= r < 0x7F || 0x80 <= r
  }

  ghost predicate AllTypable(rs: seq<Rune>) {
    forall r | r in rs :: Typable(r)
  }

  predicate AllPlain(bs: seq<Byte>) {
    forall b | b in bs :: IsPlain(b) && !NeverInUtf8(b)
  }

  /** What a stream of bytes does, as the actions other than Nothing, in order. */
  function Actions(pending: seq<Byte>, bs: seq<Byte>): (seq<Byte>, seq<Action>)
    decreases |bs|
  {
    if bs == [] then (pending, [])
    else
      var (p, a) := Classify(pending, bs[0]);
      var (q, rest) := Actions(p, bs[1..]);
      (q, if a.Nothing? then rest else [a] + rest)
  }

  function Typed(rs: seq<Rune>): (acts: seq<Action>)
    ensures |acts| == |rs|
  {
    seq(|rs|, i requires 0 <= i < |rs| => Press(InsertRune(rs[i])))
  }

  lemma {:induction false} ActionsAppend(pending: seq<Byte>, a: seq<Byte>, b: seq<Byte>)
    ensures Actions(pending, a + b)
         == (Actions(Actions(pending, a).0, b).0, Actions(pending, a).1 + Actions(Actions(pending, a).0, b).1)
    decreases |a|
  {
    if a == [] {
      assert a + b == b;
      var after := Actions(pending, b).1;
      assert [] + after == after;
    } else {
      assert (a + b)[1..] == a[1..] + b;
      var (p, act) := Classify(pending, a[0]);
      ActionsAppend(p, a[1..], b);
      var first, second := Actions(p, a[1..]).1, Actions(Actions(pending, a).0, b).1;
      assert [act] + (first + second) == [act] + first + second;
    }
  }

  /** Part of a multi-byte rune is collected without any effect. */
  lemma {:induction false} CollectPart(r: Rune, k: nat)
    requires r >= 0x80 && 1 <= k < |Encode(r)|
    ensures Actions(Encode(r)[..1], Encode(r)[1..k]) == (Encode(r)[..k], [])
    decreases k
  {
    hide Decode, Encode;
    EncodeShape(r);
    var e := Encode(r);
    if k == 1 {
      assert e[1..1] == [];
    } else {
      CollectPart(r, k - 1);
      assert e[1..k] == e[1..k - 1] + [e[k - 1]];
      ActionsAppend(e[..1], e[1..k - 1], [e[k - 1]]);
      var joined := e[..k - 1] + [e[k - 1]];
      assert joined == e[..k];
      assert IsCont(e[k - 1]);
      assert ([e[k - 1]])[1..] == [];
      assert Actions(e[..k - 1], [e[k - 1]]) == (joined, []);
    }
  }

  /** The bytes of a rune insert exactly that rune, whatever was pending. */
  lemma CollectRune(pending: seq<Byte>, r: Rune)
    requires Typable(r)
    ensures Actions(pending, Encode(r)) == ([], [Press(InsertRune(r))])
  {
    hide Decode, Encode;
    EncodeShape(r);
    var e := Encode(r);
    if r < 0x80 {
      EncodeLong(r);
      assert e[1..] == [];
      var act := Press(InsertRune(r));
      assert [act] + [] == [act];
    } else {
      EncodeLong(r);
      var n := |e|;
      LeadStarts(pending, r);
      CollectPart(r, n - 1);
      assert e == e[..1] + e[1..n - 1] + [e[n - 1]];
      ActionsAppend(pending, e[..1], e[1..n - 1]);
      ActionsAppend(pending, e[..1] + e[1..n - 1], [e[n - 1]]);
      LastByteInserts(r);
      assert [] + [Press(InsertRune(r))] == [Press(InsertRune(r))];
    }
  }

  lemma LeadStarts(pending: seq<Byte>, r: Rune)
    requires r >= 0x80
    ensures Actions(pending, Encode(r)[..1]) == (Encode(r)[..1], [])
  {
    EncodeShape(r);
    var e := Encode(r);
    assert e[0] in e && e[..1] == [e[0]] && [e[0]][1..] == [];
  }

  lemma LastByteInserts(r: Rune)
    requires r >= 0x80
    ensures var e := Encode(r);
      Actions(e[..|e| - 1], [e[|e| - 1]]) == ([], [Press(InsertRune(r))])
  {
    hide Decode, Encode;
    EncodeShape(r);
    EncodeLong(r);
    var e := Encode(r);
    DecodeEncode(r, []);
    assert e + [] == e && e[..|e| - 1] + [e[|e| - 1]] == e && e[..|e|] == e;
    assert IsCont(e[|e| - 1]);
    assert ([e[|e| - 1]])[1..] == [];
    var act := Press(InsertRune(r));
    assert Classify(e[..|e| - 1], e[|e| - 1]) == ([], act);
    assert [act] + [] == [act];
  }

  /**
   Whatever partial or malformed bytes came before, the encoding of a text types
   exactly its runes, in order, and leaves nothing pending.
   */
  lemma {:induction false} StreamTypesText(pending: seq<Byte>, rs: seq<Rune>)
    requires AllTypable(rs)
    ensures Actions(pending, EncodeAll(rs)) == (if rs == [] then pending else [], Typed(rs))
    decreases |rs|
  {
    if rs != [] {
      assert rs[0] in rs;
      CollectRune(pending, rs[0]);
      StreamTypesText([], rs[1..]);
      ActionsAppend(pending, Encode(rs[0]), EncodeAll(rs[1..]));
      assert Typed(rs) == [Press(InsertRune(rs[0]))] + Typed(rs[1..]);
    }
  }

  /** The view after the actions of a stream; Raw has no view and ends it. */
  function Perform(font: Font, v: View, acts: seq<Action>): (v': View)
    requires v.screen.Valid()
    ensures v'.screen.Valid()
    decreases |acts|
  {
    if acts == [] || acts[0].Raw? then v
    else Perform(font, if acts[0].Press? then Next(font, v, Key(acts[0].op)) else v, acts[1..])
  }

  /** Typed text ends up in the line: left of the cursor, or at the end while masked. */
  lemma {:induction false} PerformTypes(font: Font, v: View, rs: seq<Rune>)
    requires v.screen.Valid()
    ensures Perform(font, v, Typed(rs)).line == TypedLine(v, rs)
    ensures Perform(font, v, Typed(rs)).masked == v.masked
    decreases |rs|
  {
    hide Write, StepBytes;
    if rs != [] {
      var v1 := Next(font, v, Key(InsertRune(rs[0])));
      assert Typed(rs)[1..] == Typed(rs[1..]);
      PerformTypes(font, v1, rs[1..]);
      assert v.line.left + [rs[0]] + rs[1..] == v.line.left + rs;
      assert v.line.Text() + [rs[0]] + rs[1..] == v.line.Text() + rs;
    }
  }

  function TypedLine(v: View, rs: seq<Rune>): Line {
    if rs == [] then v.line
    else if v.masked then Line(v.line.Text() + rs, [])
    else Line(v.line.left + rs, v.line.right)
  }

  // ---- the partial word before the cursor ----

  predicate IsBlank(c: int) {
    c == 0x20 || c == 0x09
  }

  /** Index just behind the last space or tab. */
  function AfterBlank(s: seq<int>): (k: nat)
    ensures k <= |s|
  {
    if s == [] then 0
    else if IsBlank(s[|s| - 1]) then |s|
    else AfterBlank(s[..|s| - 1])
  }

  lemma {:induction false} SkipWord(s: seq<Byte>, w: seq<Byte>)
    requires forall b | b in w :: !IsBlank(b)
    ensures AfterBlank(s + w) == AfterBlank(s)
    decreases |w|
  {
    if w == [] {
      assert s + w == s;
    } else {
      assert (s + w)[..|s + w| - 1] == s + w[..|w| - 1];
      assert w[|w| - 1] in w;
      SkipWord(s, w[..|w| - 1]);
    }
  }

  /** Blanks are found at the same place in the bytes and in the runes. */
  lemma {:induction false} AfterBlankBytes(rs: seq<Rune>)
    ensures AfterBlank(EncodeAll(rs)) == |EncodeAll(rs[..AfterBlank(rs)])|
    decreases |rs|
  {
    if rs != [] {
      hide Encode;
      var before, r := rs[..|rs| - 1], rs[|rs| - 1];
      assert rs == before + [r];
      EncodeAllAppend(before, [r]);
      EncodeAllOne(r);
      EncodeLong(r);
      EncodeShape(r);
      if IsBlank(r) {
        assert rs[..|rs|] == rs;
      } else {
        SkipWord(EncodeAll(before), Encode(r));
        AfterBlankBytes(before);
        assert before[..AfterBlank(before)] == rs[..AfterBlank(rs)];
      }
    }
  }

  /** What completion offers for the line: nothing, a text to complete it with, or a list. */
  datatype Offer = NoOffer | Completed(text: seq<Byte>) | Many(listing: seq<Byte>, prompt: seq<Byte>)

  function TabStep(v: View, offer: Offer): Step {
    if v.masked || v.line.right != [] || offer.NoOffer? then Bell
    else if offer.Completed? then Extend(|v.line.left| - AfterBlank(v.line.left), DecodeAll(offer.text))
    else Listing(offer.listing, offer.prompt)
  }

  /** What the read loop can meet: a byte of text or a control key, a telnet command, an arrow key, Enter, Tab. */
  datatype Input =
    | Plain(b: Byte)
    | Command(hasData: bool)
    | Arrow(kind: MotionKind)
    | History(recalled: Option<seq<Byte>>)
    | Break(prompt: seq<Byte>)
    | Tab(offer: Offer)

  /** No byte that UTF-8 never uses, and only well-formed text from the history and the completer. */
  ghost predicate WellEncoded(e: Input) {
    match e
    case Plain(b) => !NeverInUtf8(b)
    case Command(hasData) => !hasData
    case History(recalled) => recalled.Some? ==> IsUtf8(recalled.value)
    case Tab(offer) => offer.Completed? ==> IsUtf8(offer.text)
    case _ => true
  }

  /** A plain byte goes to the collector; everything else drops a sequence in progress. */
  function NextPending(pending: seq<Byte>, e: Input): seq<Byte> {
    if e.Plain? then Classify(pending, e.b).0 else []
  }

  /** The steps one input makes: what it does depends on the pending bytes, the line and the mask. */
  function InputSteps(pending: seq<Byte>, v: View, e: Input): seq<Step> {
    match e
    case Plain(b) =>
      var act := Classify(pending, b).1;
      if act.Press? then [Key(act.op)] else []
    case Command(hasData) => []
    case Arrow(kind) => [Key(MotionOp(kind))]
    case History(recalled) => [if recalled.None? then Bell else Key(Replace(DecodeAll(recalled.value)))]
    case Break(prompt) => if v.line.Text() == [] then [BareEnter(prompt)] else [TakeLine, Output(NEWLINE)]
    case Tab(offer) => [TabStep(v, offer)]
  }

  /** The lines one input hands over: Enter hands over what stands in the line, unless it is empty. */
  function InputLines(v: View, e: Input): seq<seq<Byte>> {
    if e.Break? && v.line.Text() != [] then [EncodeAll(v.line.Text())] else []
  }

  function StreamPending(pending: seq<Byte>, events: seq<Input>): seq<Byte>
    decreases |events|
  {
    if events == [] then pending else StreamPending(NextPending(pending, events[0]), events[1..])
  }

  /** The steps of a whole stream, each input meeting the view that those before it left. */
  function StreamSteps(font: Font, pending: seq<Byte>, v: View, events: seq<Input>): seq<Step>
    requires v.screen.Valid()
    decreases |events|
  {
    if events == [] then []
    else
      var first := InputSteps(pending, v, events[0]);
      first + StreamSteps(font, NextPending(pending, events[0]), Run(font, v, first), events[1..])
  }

  function StreamLines(font: Font, pending: seq<Byte>, v: View, events: seq<Input>): seq<seq<Byte>>
    requires v.screen.Valid()
    decreases |events|
  {
    if events == [] then []
    else
      var first := InputSteps(pending, v, events[0]);
      InputLines(v, events[0])
      + StreamLines(font, NextPending(pending, events[0]), Run(font, v, first), events[1..])
  }

  lemma {:induction false} RunAppend(font: Font, v: View, a: seq<Step>, b: seq<Step>)
    requires v.screen.Valid()
    ensures Run(font, v, a + b) == Run(font, Run(font, v, a), b)
    decreases |a|
  {
    hide Next;
    if a == [] {
      assert a + b == b;
    } else {
      assert (a + b)[1..] == a[1..] + b;
      RunAppend(font, Next(font, v, a[0]), a[1..], b);
    }
  }

  lemma RunFew(font: Font, v: View)
    requires v.screen.Valid()
    ensures Run(font, v, []) == v
    ensures forall a :: Run(font, v, [a]) == Next(font, v, a)
    ensures forall a, b {:trigger Run(font, v, [a, b])} ::
              Run(font, v, [a, b]) == Next(font, Next(font, v, a), b)
  {
    hide Next;
    forall a, b
      ensures Run(font, v, [a, b]) == Next(font, Next(font, v, a), b)
    {
      assert [a, b][0] == a && [a, b][1..] == [b];
      assert Run(font, Next(font, v, a), [b]) == Next(font, Next(font, v, a), b);
    }
  }

  /** A stream read input by input. */
  lemma StreamUnfolds(font: Font, pending: seq<Byte>, v: View, events: seq<Input>)
    requires v.screen.Valid() && events != []
    ensures var first := InputSteps(pending, v, events[0]);
      var (p, w) := (NextPending(pending, events[0]), Run(font, v, first));
      && Run(font, v, StreamSteps(font, pending, v, events)) == Run(font, w, StreamSteps(font, p, w, events[1..]))
      && StreamLines(font, pending, v, events) == InputLines(v, events[0]) + StreamLines(font, p, w, events[1..])
  {
    hide Run, InputSteps, InputLines, NextPending;
    var first := InputSteps(pending, v, events[0]);
    var p, w := NextPending(pending, events[0]), Run(font, v, first);
    RunAppend(font, v, first, StreamSteps(font, p, w, events[1..]));
  }

  function Bytes(bs: seq<Byte>): (events: seq<Input>)
    ensures |events| == |bs|
  {
    seq(|bs|, i requires 0 <= i < |bs| => Plain(bs[i]))
  }

  /** Bytes that UTF-8 uses do in a stream what the collector makes of them. */
  lemma {:induction false} PlainStream(font: Font, pending: seq<Byte>, v: View, bs: seq<Byte>, after: seq<Input>)
    requires v.screen.Valid() && AllPlain(bs)
    ensures var (p, w) := (Actions(pending, bs).0, Perform(font, v, Actions(pending, bs).1));
      StreamLines(font, pending, v, Bytes(bs) + after) == StreamLines(font, p, w, after)
    decreases |bs|
  {
    hide Next, Classify;
    if bs == [] {
      assert Bytes(bs) + after == after;
    } else {
      var events := Bytes(bs) + after;
      assert bs[0] in bs && events[1..] == Bytes(bs[1..]) + after;
      RunFew(font, v);
      RawIsNeverUtf8(pending, bs[0]);
      var (p, act) := Classify(pending, bs[0]);
      PlainStream(font, p, if act.Press? then Next(font, v, Key(act.op)) else v, bs[1..], after);
    }
  }

  /** Whatever was pending, a text typed into a line and Enter hand over the line with the text in it. */
  lemma EnterHandsOver(font: Font, pending: seq<Byte>, v: View, rs: seq<Rune>, prompt: seq<Byte>)
    requires v.screen.Valid() && AllTypable(rs)
    ensures var text := TypedLine(v, rs).Text();
      StreamLines(font, pending, v, Bytes(EncodeAll(rs)) + [Break(prompt)])
      == if text == [] then [] else [EncodeAll(text)]
  {
    hide Next, Classify, EncodeAll;
    TypableBytes(rs);
    PlainStream(font, pending, v, EncodeAll(rs), [Break(prompt)]);
    StreamTypesText(pending, rs);
    PerformTypes(font, v, rs);
    assert [Break(prompt)][1..] == [];
  }

  class Session {
    const input: LineEdit
    var inPasswordMode: bool
    var lastPrompt: seq<Byte>
    const utf8Pending: array<Byte>
    var utf8Have: nat
    /** The remote terminal, fed by every write to the connection. */
    ghost var screen: Screen

    ghost predicate Valid()
      reads this, input, utf8Pending
    {
      utf8Pending.Length == 4 && utf8Have <= 4 && input.Valid() && screen.Valid()
    }

    ghost predicate Clean()
      reads this, input, utf8Pending
    {
      Valid() && input.Clean()
    }

    ghost function Seen(): View
      requires Valid()
      reads this, input, utf8Pending
    {
      View(input.Model(), inPasswordMode, lastPrompt, screen)
    }

    function Pending(): seq<Byte>
      requires utf8Pending.Length == 4 && utf8Have <= 4
      reads this, utf8Pending
    {
      utf8Pending[..utf8Have]
    }

    /** The session is well formed and has the view v. */
    ghost predicate Is(v: View)
      reads this, input, utf8Pending
    {
      Clean() && Seen() == v
    }

    constructor (font: Font)
      ensures Valid() && fresh(input) && fresh(utf8Pending) && input.font == font
      ensures Is(View(EMPTY, false, [], FRESH)) && utf8Have == 0
    {
      input := new LineEdit(font);
      inPasswordMode, lastPrompt, utf8Have, screen := false, [], 0, FRESH;
      utf8Pending := new Byte[4](_ => 0);
    }

    /** Writes to the connection. */
    ghost method Emit(out: seq<Byte>)
      requires screen.Valid()
      modifies this`screen
      ensures screen.Valid() && screen == Write(input.font, old(screen), out)
    {
      screen := Write(input.font, screen, out);
    }

    method HandleMotion(kind: MotionKind)
      requires Valid()
      modifies this`screen, input
      ensures Valid()
      ensures old(Clean()) ==> Is(Next(input.font, old(Seen()), Key(MotionOp(kind))))
    {
      hide Write, EchoOf, Edited, Decode, DecodeAll, Encode, EncodeAll, IsUtf8;
      if inPasswordMode {
        Emit([BEL]);
        return;
      }
      var echo;
      match kind {
        case MotionLeft => echo := input.MoveLeft();
        case MotionRight => echo := input.MoveRight();
        case MotionHome => echo := input.MoveHome();
        case MotionEnd => echo := input.MoveEnd();
        case MotionDelete => echo := input.Delete();
      }
      Emit(if |echo| == 0 then [BEL] else echo);
    }

    method HandleKill(kind: KillKind)
      requires Valid()
      modifies this`screen, input
      ensures Valid()
      ensures old(Clean()) ==> Is(Next(input.font, old(Seen()), Key(KillOp(kind))))
    {
      hide Write, EchoOf, Edited, Decode, DecodeAll, Encode, EncodeAll, IsUtf8;
      if inPasswordMode {
        Emit([BEL]);
        return;
      }
      var echo;
      match kind {
        case KillStart => echo := input.KillToStart();
        case KillEnd => echo := input.KillToEnd();
        case KillWord => echo := input.KillPrevWord();
      }
      Emit(if |echo| == 0 then [BEL] else echo);
    }

    /** Up and down arrows: the line recalled from the history, if there is one. */
    method HandleHistoryStep(recalled: Option<seq<Byte>>)
      requires Valid()
      modifies this`screen, input
      ensures Valid()
      ensures old(Clean()) && recalled.None? ==> Is(Next(input.font, old(Seen()), Bell))
      ensures old(Clean()) && recalled.Some? && IsUtf8(recalled.value) ==>
                Is(Next(input.font, old(Seen()), Key(Replace(DecodeAll(recalled.value)))))
    {
      hide Write, EchoOf, Edited;
      if inPasswordMode || recalled.None? {
        Emit([BEL]);
      } else {
        var echo := input.Replace(recalled.value);
        Emit(echo);
        WriteNothing(input.font, old(screen));
      }
    }

    method HandleBackspace()
      requires Valid()
      modifies this`screen, input
      ensures Valid()
      ensures old(Clean()) ==> Is(Next(input.font, old(Seen()), Key(Backspace)))
    {
      hide Write, EchoOf, Edited, DecodeLast, DecodeAll, Decode, EncodeAll;
      NoRunes();
      ghost var left, right := input.buf[..input.cursor], input.buf[input.cursor..];
      assert left + right == input.buf;
      if old(Clean()) {
        Utf8Append(left, right);
      }
      if inPasswordMode {
        if |input.buf| == 0 {
          WriteNothing(input.font, screen);
          return;
        }
        var (_, size) := DecodeLast(input.buf);
        if old(Clean()) {
          LastRune(input.buf);
        }
        input.buf := input.buf[..|input.buf| - size];
        input.cursor := |input.buf|;
        if old(Clean()) {
          assert input.buf == input.buf + [];
          input.HoldsSplice(input.buf, []);
        }
        Emit([BS, SPACE, BS]);
      } else {
        var echo := input.Backspace();
        Emit(echo);
      }
    }

    /** One byte of input; only ASCII bytes reach the display as themselves. */
    method BufferInput(b: Byte)
      requires Valid()
      modifies this`screen, input
      ensures Valid()
      ensures old(Clean()) && b < 0x80 ==> Is(Next(input.font, old(Seen()), Key(InsertRune(b))))
      ensures NeverInUtf8(b) ==> !Clean()
    {
      hide Write, EchoOf, Edited, DecodeAll, Decode, EncodeAll;
      NoRunes();
      if inPasswordMode {
        AppendIsEdit([b]);
        input.buf := input.buf + [b];
        input.cursor := |input.buf|;
        assert input.buf[..input.cursor] == input.buf && input.buf[input.cursor..] == [];
        if NeverInUtf8(b) {
          NotUtf8(input.buf, |input.buf| - 1);
        }
        if b < 0x80 {
          EncodeLong(b);
          EncodedRune(b);
        }
        Emit([STAR]);
      } else {
        var echo := input.Insert(b);
        Emit(echo);
        if old(Clean()) && b < 0x80 {
          InsertEchoes(input.font, old(input.Model()), b);
        }
      }
    }

    /** Appending well-formed bytes to the whole buffer. */
    lemma AppendIsEdit(e: seq<Byte>)
      requires Valid()
      ensures input.Clean() && IsUtf8(e) ==>
        && IsUtf8(input.buf + e)
        && DecodeAll(input.buf + e) == input.Model().Text() + DecodeAll(e)
    {
      hide Decode, DecodeAll, EncodeAll;
      var left, right := input.buf[..input.cursor], input.buf[input.cursor..];
      assert left + right == input.buf;
      if input.Clean() && IsUtf8(e) {
        Utf8Append(left, right);
        Utf8Append(input.buf, e);
      }
    }

    method BufferInputRune(r: Rune)
      requires Valid()
      modifies this`screen, input
      ensures Valid()
      ensures old(Clean()) ==> Is(Next(input.font, old(Seen()), Key(InsertRune(r))))
    {
      hide Write, EchoOf, Edited, DecodeAll, Decode, EncodeAll, Encode;
      NoRunes();
      if inPasswordMode {
        var enc := Encode(r);
        EncodedRune(r);
        AppendIsEdit(enc);
        input.buf := input.buf + enc;
        input.cursor := |input.buf|;
        assert input.buf[..input.cursor] == input.buf && input.buf[input.cursor..] == [];
        Emit([STAR]);
      } else {
        var echo := input.InsertRune(r);
        Emit(echo);
        if old(Clean()) {
          InsertEchoes(input.font, old(input.Model()), r);
        }
      }
    }

    /** A lead byte starts a new sequence. */
    method CollectLead(b: Byte)
      requires Valid()
      modifies this`utf8Have, utf8Pending
      ensures Valid() && Pending() == [b]
    {
      utf8Pending[0] := b;
      utf8Have := 1;
    }

    method CollectContinuation(b: Byte)
      requires Valid() && IsCont(b)
      modifies this`screen, this`utf8Have, utf8Pending, input
      ensures Valid() && Pending() == Continue(old(Pending()), b).0
      ensures old(Clean()) ==>
                var action := Continue(old(Pending()), b).1;
                Is(if action.Press? then Next(input.font, old(Seen()), Key(action.op)) else old(Seen()))
    {
      hide Write, EchoOf, Edited, DecodeAll, Decode, EncodeAll, Encode, Next;
      if utf8Have == 0 {
        return;
      }
      if utf8Have >= utf8Pending.Length {
        utf8Have := 0;
        return;
      }
      utf8Pending[utf8Have] := b;
      utf8Have := utf8Have + 1;
      assert Pending() == old(Pending()) + [b];
      var expected := ExpectedLen(utf8Pending[0]);
      if expected == 0 {
        utf8Have := 0;
        return;
      }
      if utf8Have < expected {
        return;
      }
      var (r, n) := Decode(utf8Pending[..expected]);
      assert utf8Pending[..expected] == Pending()[..expected];
      utf8Have := 0;
      if r == RUNE_ERROR && n < expected {
        return;
      }
      BufferInputRune(r);
    }

    /** One byte other than IAC, ESC, CR, LF and HT. */
    method DispatchByte(b: Byte)
      requires Valid() && IsPlain(b)
      modifies this`screen, this`utf8Have, utf8Pending, input
      ensures Valid() && Pending() == Classify(old(Pending()), b).0
      ensures old(Clean()) && !NeverInUtf8(b) ==>
                var action := Classify(old(Pending()), b).1;
                Is(if action.Press? then Next(input.font, old(Seen()), Key(action.op)) else old(Seen()))
      ensures NeverInUtf8(b) ==> !Clean()
    {
      hide Next, Write, Continue, Decode, DecodeAll, EncodeAll, Encode, IsUtf8, EchoOf, Edited;
      if b < 0x80 || b > 0xBF {
        utf8Have := 0;
      }
      if b == BS || b == 0x7F {
        HandleBackspace();
      } else if b == 1 {
        HandleMotion(MotionHome);
      } else if b == 5 {
        HandleMotion(MotionEnd);
      } else if b == 21 {
        HandleKill(KillStart);
      } else if b == 11 {
        HandleKill(KillEnd);
      } else if b == 23 {
        HandleKill(KillWord);
      } else if 0x80 <= b <= 0xBF {
        CollectContinuation(b);
      } else if 0xC2 <= b <= 0xF4 {
        CollectLead(b);
      } else if PrintableByte(b) {
        utf8Have := 0;
        BufferInput(b);
      } else {
        utf8Have := 0;
      }
    }

    /** A telnet command; an escaped IAC is data byte 255. */
    method DispatchIac(hasData: bool)
      requires Valid()
      modifies this`screen, this`utf8Have, input
      ensures Valid() && Pending() == []
      ensures !hasData && old(Clean()) ==> Is(old(Seen()))
      ensures hasData ==> !Clean()
    {
      utf8Have := 0;
      if hasData {
        BufferInput(IAC);
      }
    }

    /** The read loop over a stretch of such bytes. */
    method ReadBytes(bs: seq<Byte>)
      requires Valid() && AllPlain(bs)
      modifies this`screen, this`utf8Have, utf8Pending, input
      ensures Valid() && Pending() == Actions(old(Pending()), bs).0
      ensures old(InProgress(Pending())) ==> InProgress(Pending()) && utf8Have <= 3
      ensures old(Clean()) ==> Is(Perform(input.font, old(Seen()), Actions(old(Pending()), bs).1))
    {
      hide Write, Classify, Next;
      var i := 0;
      assert bs[0..] == bs;
      while i < |bs|
        invariant i <= |bs| && Valid()
        invariant Actions(old(Pending()), bs).0 == Actions(Pending(), bs[i..]).0
        invariant old(InProgress(Pending())) ==> InProgress(Pending())
        invariant old(Clean()) ==> Clean()
        invariant old(Clean()) ==>
                    Perform(input.font, old(Seen()), Actions(old(Pending()), bs).1)
                    == Perform(input.font, Seen(), Actions(Pending(), bs[i..]).1)
      {
        assert bs[i] in bs && bs[i..][1..] == bs[i + 1..];
        ClassifyInProgressIf(Pending(), bs[i]);
        RawIsNeverUtf8(Pending(), bs[i]);
        DispatchByte(bs[i]);
        i := i + 1;
      }
      assert bs[i..] == [];
    }

    /** Typing a text, whatever was pending, puts exactly that text left of the cursor, or at the end while masked. */
    method ReadText(rs: seq<Rune>)
      requires Clean() && AllTypable(rs)
      modifies this`screen, this`utf8Have, utf8Pending, input
      ensures Clean() && input.Model() == TypedLine(old(Seen()), rs)
      ensures rs != [] ==> utf8Have == 0
    {
      hide Write, Next, Classify, EncodeAll, DecodeAll, IsUtf8;
      StreamTypesText(Pending(), rs);
      TypableBytes(rs);
      PerformTypes(input.font, Seen(), rs);
      ReadBytes(EncodeAll(rs));
    }

    /** Tab at the end of the line completes the word before the cursor, lists, or rings. */
    method HandleTab(offer: Offer)
      requires Valid()
      modifies this`screen, this`lastPrompt, input
      ensures Valid()
      ensures old(Clean()) && (offer.Completed? ==> IsUtf8(offer.text)) ==>
                Is(Next(input.font, old(Seen()), TabStep(old(Seen()), offer)))
    {
      hide Write, DecodeAll, Decode, EncodeAll, EncodeAll, RubOuts;
      if inPasswordMode || offer.NoOffer? {
        Emit([BEL]);
        return;
      }
      if input.cursor != |input.buf| {
        Emit([BEL]);
        if old(Clean()) {
          NonEmptyRunes(input.buf[input.cursor..]);
        }
        return;
      }
      if offer.Many? {
        assert input.buf[input.cursor..] == [];
        NoRunes();
        ListAndRedraw(offer.listing, offer.prompt);
        return;
      }
      var start := AfterBlank(input.buf);
      ghost var l := input.Model();
      if old(Clean()) {
        WholeBuffer();
        PartialRunes(input.buf);
        NoRunes();
        assert input.buf[input.cursor..] == [] && l.Text() == l.left;
        assert |l.left| - (|l.left| - AfterBlank(l.left)) == AfterBlank(l.left);
      }
      ExtendBuffer(input.buf[start..], offer.text);
    }

    method ExtendBuffer(partial: seq<Byte>, replacement: seq<Byte>)
      requires Valid()
      modifies this`screen, input
      ensures Valid()
      ensures && old(Clean()) && IsUtf8(replacement) && old(input.cursor == |input.buf|)
              && |partial| <= |old(input.buf)| && partial == old(input.buf)[|old(input.buf)| - |partial|..]
              && IsUtf8(partial) && IsUtf8(old(input.buf)[..|old(input.buf)| - |partial|]) ==>
                Is(View(Line(DecodeAll(old(input.buf)[..|old(input.buf)| - |partial|]) + DecodeAll(replacement), []),
                             old(inPasswordMode), old(lastPrompt),
                             Write(input.font, old(screen),
                                   RubOuts(input.font.Width(DecodeAll(partial))) + replacement)))
    {
      hide Write, DecodeAll, Decode, EncodeAll, RubOuts;
      if |partial| > |input.buf| {
        return;
      }
      ghost var before := input.buf[..|input.buf| - |partial|];
      input.buf := input.buf[..|input.buf| - |partial|];
      input.buf := input.buf + replacement;
      input.cursor := |input.buf|;
      Emit(RubOuts(CellWidth(input.font, partial)) + replacement);
      if IsUtf8(before) && IsUtf8(replacement) {
        Utf8Append(before, replacement);
        NoRunes();
        assert input.buf == input.buf + [];
        input.HoldsSplice(input.buf, []);
      }
    }

    /** Candidates above a fresh prompt and the line; an empty prompt is not cached. */
    method ListAndRedraw(listing: seq<Byte>, prompt: seq<Byte>)
      requires Valid()
      modifies this`screen, this`lastPrompt
      ensures Valid()
      ensures old(Clean()) ==> Is(Next(input.font, old(Seen()), Listing(listing, prompt)))
    {
      hide Write, DecodeAll, Decode, EncodeAll;
      var out := [CR, LF] + listing + prompt + input.buf;
      if old(Clean()) {
        WholeBuffer();
      }
      if prompt != [] {
        lastPrompt := prompt;
      }
      Emit(out);
    }

    lemma WholeBuffer()
      requires Clean()
      ensures EncodeAll(input.Model().Text()) == input.buf
      ensures DecodeAll(input.buf) == input.Model().Text()
    {
      hide Decode, DecodeAll, EncodeAll;
      var left, right := input.buf[..input.cursor], input.buf[input.cursor..];
      assert left + right == input.buf;
      Utf8Append(left, right);
    }

    /** The input as it is echoed: a star for each rune while masked. */
    method SnapshotEcho() returns (echo: seq<Byte>)
      requires Valid()
      ensures Clean() ==> echo == EncodeAll(Shown(Seen().line, inPasswordMode).Text())
    {
      hide Write, DecodeAll, Decode, EncodeAll;
      NoRunes();
      if Clean() {
        WholeBuffer();
        var l := input.Model();
        StarBytes(|l.left|, |l.right|);
      }
      if |input.buf| == 0 {
        echo := [];
      } else if inPasswordMode {
        echo := Repeat(STAR, |DecodeAll(input.buf)|);
      } else {
        echo := input.buf;
      }
    }

    /** Output from another goroutine: erase the row, write, paint prompt and input again. */
    method WriteAsync(text: seq<Byte>, plainWidth: Option<nat>)
      requires Valid()
      modifies this`screen
      ensures Valid()
      ensures old(Clean()) ==> Is(Next(input.font, old(Seen()), Async(text, plainWidth)))
    {
      hide Write, DecodeAll, Decode, EncodeAll, Shown, IsUtf8;
      var rendered := text;
      if !(|rendered| >= 2 && rendered[|rendered| - 2..] == [CR, LF]) {
        rendered := rendered + [CR, LF];
      }
      var prefix;
      match plainWidth {
        case Some(width) =>
          var w := if width == 0 then 80 else width;
          prefix := [CR] + Repeat(SPACE, w) + [CR];
        case None =>
          prefix := [CR, ESC, 0x5B, 0x4B];
      }
      var inputEcho := SnapshotEcho();
      Emit(prefix + rendered + lastPrompt + inputEcho);
    }

    method WriteBareEnter(prompt: seq<Byte>)
      requires Valid() && prompt != []
      modifies this`screen, this`lastPrompt
      ensures Valid()
      ensures old(Clean()) ==> Is(Next(input.font, old(Seen()), BareEnter(prompt)))
    {
      hide Write;
      lastPrompt := prompt;
      Emit([CR, LF] + prompt);
    }

    /** Enter: an empty line only repaints; any other line is taken out of the buffer. */
    method HandleLineBreak(prompt: seq<Byte>) returns (line: Option<seq<Byte>>)
      requires Valid()
      modifies this`screen, this`lastPrompt, this`utf8Have, input
      ensures Valid() && utf8Have == 0
      ensures line == if old(input.buf) == [] then None else Some(old(input.buf))
      ensures old(Clean()) && line.None? ==> Is(Next(input.font, old(Seen()), BareEnter(prompt)))
      ensures old(Clean()) && line.Some? ==>
                Is(Next(input.font, Next(input.font, old(Seen()), TakeLine), Output(NEWLINE)))
    {
      hide Write;
      WriteNothing(input.font, screen);
      utf8Have := 0;
      if |input.buf| == 0 {
        if prompt != [] {
          WriteBareEnter(prompt);
        } else {
          Emit([CR, LF]);
          assert NEWLINE + prompt == [CR, LF];
        }
        return None;
      }
      line := Some(input.buf);
      input.Reset();
      Emit([CR, LF]);
    }

    /** The dispatcher's prompt: cached as it is written. */
    method WritePrompt(prompt: seq<Byte>)
      requires Valid()
      modifies this`screen, this`lastPrompt
      ensures Valid()
      ensures old(Clean()) ==> Is(Next(input.font, old(Seen()), Prompt(prompt)))
    {
      lastPrompt := prompt;
      if |prompt| == 0 {
        WriteNothing(input.font, screen);
        return;
      }
      Emit(prompt);
    }

    /**
     The read loop over any stream of input, commands, keys and line ends included: it takes
     exactly the steps of the stream, and hands over exactly its lines. If those steps meet
     their conditions, the row is in sync at the end.
     */
    method ReadStream(events: seq<Input>) returns (lines: seq<seq<Byte>>)
      requires Valid() && forall e | e in events :: e.Plain? ==> IsPlain(e.b)
      modifies this`screen, this`lastPrompt, this`utf8Have, utf8Pending, input
      ensures Valid() && Pending() == StreamPending(old(Pending()), events)
      ensures old(InProgress(Pending())) ==> InProgress(Pending()) && utf8Have <= 3
      ensures old(Clean()) && (forall e | e in events :: WellEncoded(e)) ==>
        && Is(Run(input.font, old(Seen()), StreamSteps(input.font, old(Pending()), old(Seen()), events)))
        && lines == StreamLines(input.font, old(Pending()), old(Seen()), events)
      ensures && old(Clean()) && (forall e | e in events :: WellEncoded(e)) && input.font.Valid()
              && Ordinary(old(Seen())) && Synced(input.font, old(Seen()))
              && Along(input.font, old(Seen()), StreamSteps(input.font, old(Pending()), old(Seen()), events))
              ==> Synced(input.font, Seen())
    {
      hide Write, Next, Classify, IsUtf8, InputSteps, InputLines, NextPending, Run, StreamSteps, StreamLines;
      hide Along, Synced, Ordinary;
      ghost var font, p0, v0 := input.font, Pending(), Seen();
      ghost var steps := StreamSteps(font, p0, v0, events);
      lines := [];
      var i := 0;
      assert events[0..] == events;
      assert [] + StreamLines(font, p0, v0, events) == StreamLines(font, p0, v0, events);
      while i < |events|
        invariant i <= |events| && Valid()
        invariant StreamPending(p0, events) == StreamPending(Pending(), events[i..])
        invariant old(InProgress(Pending())) ==> InProgress(Pending())
        invariant old(Clean()) && (forall e | e in events :: WellEncoded(e)) ==>
          && Clean()
          && Run(font, v0, steps) == Run(font, Seen(), StreamSteps(font, Pending(), Seen(), events[i..]))
          && StreamLines(font, p0, v0, events) == lines + StreamLines(font, Pending(), Seen(), events[i..])
      {
        assert events[i] in events && events[i..][1..] == events[i + 1..];
        StreamUnfolds(font, Pending(), Seen(), events[i..]);
        var told := ReadInput(events[i]);
        lines := lines + told;
        i := i + 1;
      }
      StreamEnds(font, Pending(), Seen());
      assert events[i..] == [];
      RunSyncIf(font, v0, steps);
    }

    /** One input takes its steps and hands over its line. */
    method ReadInput(e: Input) returns (lines: seq<seq<Byte>>)
      requires Valid() && (e.Plain? ==> IsPlain(e.b))
      modifies this`screen, this`lastPrompt, this`utf8Have, utf8Pending, input
      ensures Valid() && Pending() == NextPending(old(Pending()), e)
      ensures old(InProgress(Pending())) ==> InProgress(Pending())
      ensures old(Clean()) && WellEncoded(e) ==>
        && Is(Run(input.font, old(Seen()), InputSteps(old(Pending()), old(Seen()), e)))
        && lines == InputLines(old(Seen()), e)
    {
      hide Write, Next, Classify, IsUtf8, Run, TabStep, DecodeAll, EncodeAll, Decode;
      RunFew(input.font, Seen());
      lines := [];
      match e {
        case Plain(b) =>
          ClassifyInProgressIf(Pending(), b);
          DispatchByte(b);
        case Command(hasData) =>
          DispatchIac(hasData);
        case Arrow(kind) =>
          utf8Have := 0;
          HandleMotion(kind);
        case History(recalled) =>
          utf8Have := 0;
          HandleHistoryStep(recalled);
        case Break(prompt) =>
          if Clean() {
            WholeBuffer();
            NoRunes();
          }
          var line := HandleLineBreak(prompt);
          if line.Some? {
            lines := [line.value];
          }
        case Tab(offer) =>
          utf8Have := 0;
          HandleTab(offer);
      }
    }

    /** Drops the cached prompt, as a change of mode does. */
    method ClearLastPrompt()
      requires Valid()
      modifies this`lastPrompt
      ensures Valid()
      ensures old(Clean()) ==> Is(Next(input.font, old(Seen()), Cache([])))
    {
      lastPrompt := [];
      WriteNothing(input.font, screen);
    }

    method CacheLastPrompt(prompt: seq<Byte>)
      requires Valid()
      modifies this`lastPrompt
      ensures Valid()
      ensures old(Clean()) ==> Is(Next(input.font, old(Seen()), Cache(prompt)))
    {
      lastPrompt := prompt;
      WriteNothing(input.font, screen);
    }

    method SetPasswordMode(on: bool)
      requires Valid()
      modifies this`inPasswordMode
      ensures Valid()
      ensures old(Clean()) ==> Is(Next(input.font, old(Seen()), SetMask(on)))
    {
      inPasswordMode := on;
      WriteNothing(input.font, screen);
    }
  }

  lemma StreamEnds(font: Font, pending: seq<Byte>, v: View)
    requires v.screen.Valid()
    ensures StreamPending(pending, []) == pending && Run(font, v, StreamSteps(font, pending, v, [])) == v
    ensures StreamLines(font, pending, v, []) == []
  {
  }

  lemma RunSyncIf(font: Font, v: View, steps: seq<Step>)
    requires v.screen.Valid()
    ensures font.Valid() && Ordinary(v) && Synced(font, v) && Along(font, v, steps) ==>
              Synced(font, Run(font, v, steps))
  {
    hide Ordinary, Synced, Along;
    if font.Valid() && Ordinary(v) && Synced(font, v) && Along(font, v, steps) {
      RunSync(font, v, steps);
    }
  }

  lemma ClassifyInProgressIf(pending: seq<Byte>, b: Byte)
    ensures InProgress(pending) ==> InProgress(Classify(pending, b).0)
  {
  }

  lemma InsertEchoes(font: Font, l: Line, r: Rune)
    ensures EchoOf(font, l, InsertRune(r)) != []
  {
  }

  lemma {:induction false} TypableBytes(rs: seq<Rune>)
    requires AllTypable(rs)
    ensures AllPlain(EncodeAll(rs))
  {
    if rs != [] {
      assert rs[0] in rs;
      EncodeShape(rs[0]);
      TypableBytes(rs[1..]);
    }
  }

  lemma NonEmptyRunes(bs: seq<Byte>)
    requires bs != []
    ensures DecodeAll(bs) != []
  {
  }

  /** The partial word is made of whole runes. */
  lemma PartialRunes(bs: seq<Byte>)
    requires IsUtf8(bs)
    ensures var rs := DecodeAll(bs);
      var k := AfterBlank(bs);
      && IsUtf8(bs[..k]) && DecodeAll(bs[..k]) == rs[..AfterBlank(rs)]
      && IsUtf8(bs[k..]) && DecodeAll(bs[k..]) == rs[AfterBlank(rs)..]
  {
    hide Decode, DecodeAll, Encode, EncodeAll;
    var rs := DecodeAll(bs);
    var j := AfterBlank(rs);
    AfterBlankBytes(rs);
    assert rs == rs[..j] + rs[j..];
    EncodeAllAppend(rs[..j], rs[j..]);
    DecodeAllEncodeAll(rs[..j]);
    DecodeAllEncodeAll(rs[j..]);
    assert bs[..AfterBlank(bs)] == EncodeAll(rs[..j]);
    assert bs[AfterBlank(bs)..] == EncodeAll(rs[j..]);
  }

  lemma {:induction false} StarBytes(n: nat, m: nat)
    ensures EncodeAll(Stars(n) + Stars(m)) == Repeat(STAR, n + m)
    decreases n + m
  {
    var all := Stars(n) + Stars(m);
    if n + m > 0 {
      if n > 0 {
        assert all[1..] == Stars(n - 1) + Stars(m);
        StarBytes(n - 1, m);
      } else {
        assert all[1..] == Stars(0) + Stars(m - 1);
        StarBytes(0, m - 1);
      }
      assert Repeat(STAR, n + m) == [STAR] + Repeat(STAR, n + m - 1);
    }
  }

  // ---- what the keys mean ----

  /** BS and DEL erase; ^A ^E go to the ends; ^U ^K ^W kill; other control bytes of text do nothing. */
  lemma ControlKeys(pending: seq<Byte>, b: Byte)
    requires IsPlain(b) && (b < 0x20 || b == 0x7F)
    ensures Classify(pending, b).0 == []
    ensures Classify(pending, b).1 ==
      match b
      case 0x08 => Press(Backspace)
      case 0x7F => Press(Backspace)
      case 0x01 => Press(MoveHome)
      case 0x05 => Press(MoveEnd)
      case 0x15 => Press(KillToStart)
      case 0x0B => Press(KillToEnd)
      case 0x17 => Press(KillPrevWord)
      case _ => Nothing
  {
  }

  /** Each motion and each kill is the edit of its name. */
  lemma KeyNames(v: View)
    ensures InputSteps([], v, Arrow(MotionHome)) == [Key(MoveHome)]
    ensures InputSteps([], v, Arrow(MotionEnd)) == [Key(MoveEnd)]
    ensures InputSteps([], v, Arrow(MotionLeft)) == [Key(MoveLeft)]
    ensures InputSteps([], v, Arrow(MotionRight)) == [Key(MoveRight)]
    ensures InputSteps([], v, Arrow(MotionDelete)) == [Key(Delete)]
    ensures KillOp(KillStart) == KillToStart && KillOp(KillEnd) == KillToEnd && KillOp(KillWord) == KillPrevWord
  {
  }

  /** The partial word is what follows the last blank. */
  lemma {:induction false} AfterBlankIs(s: seq<int>)
    ensures var k := AfterBlank(s);
      && (k > 0 ==> s[k - 1] in {0x20, 0x09})
      && (forall j | k <= j < |s| :: s[j] !in {0x20, 0x09})
    decreases |s|
  {
    if s != [] && !IsBlank(s[|s| - 1]) {
      AfterBlankIs(s[..|s| - 1]);
    }
  }

  /** Tab rings while masked, inside the line or without an offer; else the offer takes the partial word's place. */
  lemma TabCompletes(font: Font, v: View, offer: Offer)
    requires v.screen.Valid()
    ensures v.masked || v.line.right != [] || offer.NoOffer? ==> TabStep(v, offer) == Bell
    ensures !v.masked && v.line.right == [] && offer.Completed? ==>
      var kept := AfterBlank(v.line.left);
      Next(font, v, TabStep(v, offer)).line == Line(v.line.left[..kept] + DecodeAll(offer.text), [])
    ensures !v.masked && v.line.right == [] && offer.Many? ==>
      TabStep(v, offer) == Listing(offer.listing, offer.prompt) && Next(font, v, TabStep(v, offer)).line == v.line
  {
    hide Write, StepBytes;
  }
}
