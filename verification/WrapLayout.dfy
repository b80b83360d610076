/**
 What a wrapped text is, told mark by mark and without the algorithm: which white space
 stays, which goes, where line breaks come in, and that no break comes too early.
 */
module WrapLayouts {
  import opened Basics
  import opened Utf8
  import opened Terminal
  import opened Wrapping

  /**
   What becomes of each unit of the text: it is kept, a TAB becomes a space, a CR goes, a
   blank gives way to a line break, or a line break is put in.
   */
  datatype Mark = Kept(u: Unit) | Tabbed | Dropped | Swapped(blank: Rune) | Inserted

  predicate MarkOk(m: Mark) {
    match m
    case Kept(u) => u != Vis(TAB) && u != Vis(RETURN)
    case Swapped(blank) => blank == SPACE || blank == TAB
    case _ => true
  }

  predicate IsBreak(m: Mark) {
    m.Swapped? || m.Inserted?
  }

  function From(m: Mark): seq<Unit> {
    match m
    case Kept(u) => [u]
    case Tabbed => [Vis(TAB)]
    case Dropped => [Vis(RETURN)]
    case Swapped(blank) => [Vis(blank)]
    case Inserted => []
  }

  function To(m: Mark): seq<Unit> {
    match m
    case Kept(u) => [u]
    case Tabbed => [Vis(SPACE)]
    case Dropped => []
    case Swapped(_) => [Vis(NEWLINE)]
    case Inserted => [Vis(NEWLINE)]
  }

  function FromAll(ms: seq<Mark>): seq<Unit> {
    if ms == [] then [] else From(ms[0]) + FromAll(ms[1..])
  }

  function ToAll(ms: seq<Mark>): seq<Unit> {
    if ms == [] then [] else To(ms[0]) + ToAll(ms[1..])
  }

  predicate IsWordUnit(u: Unit) {
    u.Vis? && IsWordRune(u.r)
  }

  predicate EndsInsideWord(ms: seq<Mark>) {
    ms != [] && ms[|ms| - 1].Kept? && IsWordUnit(ms[|ms| - 1].u)
  }

  /** The width of the word that comes next, after CRs to be dropped; 0 if none does. */
  function NextWord(font: Font, us: seq<Unit>): nat {
    if us == [] then 0
    else if us[0] == Vis(RETURN) then NextWord(font, us[1..])
    else WordWidth(font, us)
  }

  /** The width of the word runes us starts with. */
  function WordWidth(font: Font, us: seq<Unit>): nat {
    if us == [] || !IsWordUnit(us[0]) then 0 else font.width(us[0].r) + WordWidth(font, us[1..])
  }

  /**
   A break that had to be. Inside a word, the next rune would have made the line too wide;
   elsewhere the line has something on it, and with the blank, if one gives way, and the next
   word it would have been too wide. `rest` is what of the text is still to come.
   */
  ghost predicate BreakOk(font: Font, ms: seq<Mark>, rest: seq<Unit>, k: nat, width: nat)
    requires k < |ms|
  {
    var before, after := ToAll(ms[..k]), FromAll(ms[k + 1..]) + rest;
    if ms[k].Inserted? && EndsInsideWord(ms[..k]) then
      after != [] && IsWordUnit(after[0]) && LineWidth(font, before) + font.width(after[0].r) > width
    else
      var used := LineWidth(font, before) + if ms[k].Swapped? then 1 else 0;
      used > 0 && used + NextWord(font, after) > width
  }

  ghost predicate BreaksOk(font: Font, ms: seq<Mark>, rest: seq<Unit>, width: nat) {
    && (forall m | m in ms :: MarkOk(m))
    && (forall k | 0 <= k < |ms| && IsBreak(ms[k]) :: BreakOk(font, ms, rest, k, width))
  }

  /** A way to lay out the units of a text in lines, with no white space changed and no line broken without need. */
  ghost predicate IsLayout(font: Font, us: seq<Unit>, out: seq<Unit>, ms: seq<Mark>, width: nat) {
    FromAll(ms) == us && ToAll(ms) == out && BreaksOk(font, ms, [], width)
  }

  // ---- marks one after the other ----

  lemma {:induction false} FromAppend(a: seq<Mark>, b: seq<Mark>)
    ensures FromAll(a + b) == FromAll(a) + FromAll(b)
    ensures ToAll(a + b) == ToAll(a) + ToAll(b)
  {
    hide From, To;
    if a == [] {
      assert a + b == b;
    } else {
      assert (a + b)[1..] == a[1..] + b;
      FromAppend(a[1..], b);
    }
  }

  lemma FromOne(m: Mark)
    ensures FromAll([m]) == From(m) && ToAll([m]) == To(m)
  {
    assert [m][1..] == [];
  }

  lemma FromSnoc(ms: seq<Mark>, m: Mark)
    ensures FromAll(ms + [m]) == FromAll(ms) + From(m)
    ensures ToAll(ms + [m]) == ToAll(ms) + To(m)
  {
    FromAppend(ms, [m]);
    FromOne(m);
  }

  /** A break is judged alike before and after the next unit is marked. */
  lemma BreakStands(font: Font, ms: seq<Mark>, m: Mark, rest: seq<Unit>, k: nat, width: nat)
    requires k < |ms| && BreakOk(font, ms, From(m) + rest, k, width)
    ensures BreakOk(font, ms + [m], rest, k, width)
  {
    hide FromAll, ToAll, LineWidth, NextWord;
    var ms' := ms + [m];
    assert ms'[..k] == ms[..k] && ms'[k + 1..] == ms[k + 1..] + [m];
    FromSnoc(ms[k + 1..], m);
    Assoc(FromAll(ms[k + 1..]), From(m), rest);
  }

  /** One more mark; if it is a break, it had to be. */
  lemma BreaksSnoc(font: Font, ms: seq<Mark>, m: Mark, rest: seq<Unit>, width: nat)
    requires BreaksOk(font, ms, From(m) + rest, width) && MarkOk(m)
    requires IsBreak(m) ==> BreakOk(font, ms + [m], rest, |ms|, width)
    ensures BreaksOk(font, ms + [m], rest, width)
  {
    hide BreakOk;
    forall k | 0 <= k < |ms + [m]| && IsBreak((ms + [m])[k])
      ensures BreakOk(font, ms + [m], rest, k, width)
    {
      if k < |ms| {
        BreakStands(font, ms, m, rest, k, width);
      }
    }
  }

  lemma LastBreak(font: Font, ms: seq<Mark>, m: Mark, rest: seq<Unit>, width: nat)
    requires IsBreak(m) && !(m.Inserted? && EndsInsideWord(ms))
    requires var used := LineWidth(font, ToAll(ms)) + (if m.Swapped? then 1 else 0);
      used > 0 && used + NextWord(font, rest) > width
    ensures BreakOk(font, ms + [m], rest, |ms|, width)
  {
    hide LineWidth, NextWord, ToAll;
    var ms' := ms + [m];
    assert ms'[..|ms|] == ms && ms'[|ms| + 1..] == [] && [] + rest == rest;
  }

  lemma InnerBreak(font: Font, ms: seq<Mark>, r: Rune, rest: seq<Unit>, width: nat)
    requires EndsInsideWord(ms) && IsWordRune(r) && LineWidth(font, ToAll(ms)) + font.width(r) > width
    ensures BreakOk(font, ms + [Inserted], [Vis(r)] + rest, |ms|, width)
  {
    hide LineWidth, NextWord, ToAll;
    var ms' := ms + [Inserted];
    assert ms'[..|ms|] == ms && ms'[|ms| + 1..] == [] && [] + ([Vis(r)] + rest) == [Vis(r)] + rest;
  }

  /** A blank whose place the break takes. */
  lemma BlankGivesWay(font: Font, a: seq<Mark>, blank: Mark, tail: seq<Mark>, rest: seq<Unit>, width: nat)
    requires BreaksOk(font, a + [blank] + tail, rest, width)
    requires (blank == Kept(Vis(SPACE)) || blank == Tabbed) && forall m | m in tail :: m.Dropped?
    requires LineWidth(font, ToAll(a)) + 1 + NextWord(font, FromAll(tail) + rest) > width
    ensures var swap := Swapped(if blank.Tabbed? then TAB else SPACE);
      BreaksOk(font, a + [swap] + tail, rest, width)
  {
    hide BreakOk, NextWord, FromAll, ToAll;
    var swap := Swapped(if blank.Tabbed? then TAB else SPACE);
    var ms' := a + [swap] + tail;
    assert forall k | |a| < k < |ms'| :: ms'[k] == tail[k - |a| - 1] && tail[k - |a| - 1] in tail;
    MarksOk(a, blank, swap, tail);
    forall k | 0 <= k < |ms'| && IsBreak(ms'[k])
      ensures BreakOk(font, ms', rest, k, width)
    {
      assert k <= |a|;
      if k < |a| {
        BreakBefore(font, a, blank, swap, tail, rest, k, width);
      } else {
        BreakHere(font, a, swap, tail, rest, width);
      }
    }
  }

  lemma MarksOk(a: seq<Mark>, x: Mark, y: Mark, tail: seq<Mark>)
    requires (forall m | m in a + [x] + tail :: MarkOk(m)) && MarkOk(y)
    ensures forall m | m in a + [y] + tail :: MarkOk(m)
  {
    assert forall m | m in a + [y] + tail :: m == y || m in a + [x] + tail;
  }

  lemma BreakBefore(font: Font, a: seq<Mark>, x: Mark, y: Mark, tail: seq<Mark>, rest: seq<Unit>, k: nat, width: nat)
    requires BreaksOk(font, a + [x] + tail, rest, width) && k < |a| && IsBreak(a[k]) && From(x) == From(y)
    ensures BreakOk(font, a + [y] + tail, rest, k, width)
  {
    hide FromAll, ToAll, LineWidth, NextWord;
    var ms, ms' := a + [x] + tail, a + [y] + tail;
    assert ms[k] == a[k] == ms'[k];
    assert BreakOk(font, ms, rest, k, width);
    SameAhead(a, x, y, tail, k);
    assert ms'[..k] == a[..k] == ms[..k];
  }

  lemma BreakHere(font: Font, a: seq<Mark>, swap: Mark, tail: seq<Mark>, rest: seq<Unit>, width: nat)
    requires swap.Swapped? && LineWidth(font, ToAll(a)) + 1 + NextWord(font, FromAll(tail) + rest) > width
    ensures BreakOk(font, a + [swap] + tail, rest, |a|, width)
  {
    hide FromAll, ToAll, LineWidth, NextWord;
    var ms' := a + [swap] + tail;
    assert ms'[..|a|] == a && ms'[|a| + 1..] == tail;
  }

  lemma SameAhead(a: seq<Mark>, x: Mark, y: Mark, tail: seq<Mark>, k: nat)
    requires k < |a| && From(x) == From(y)
    ensures FromAll((a + [x] + tail)[k + 1..]) == FromAll((a + [y] + tail)[k + 1..])
  {
    hide FromAll;
    assert (a + [x] + tail)[k + 1..] == a[k + 1..] + [x] + tail;
    assert (a + [y] + tail)[k + 1..] == a[k + 1..] + [y] + tail;
    FromSnoc(a[k + 1..], x);
    FromSnoc(a[k + 1..], y);
    FromAppend(a[k + 1..] + [x], tail);
    FromAppend(a[k + 1..] + [y], tail);
  }

  lemma {:induction false} DroppedShowNothing(tail: seq<Mark>, font: Font, rest: seq<Unit>)
    requires forall m | m in tail :: m.Dropped?
    ensures ToAll(tail) == [] && NextWord(font, FromAll(tail) + rest) == NextWord(font, rest)
  {
    if tail != [] {
      assert tail[0] in tail;
      DroppedShowNothing(tail[1..], font, rest);
      assert FromAll(tail) + rest == [Vis(RETURN)] + (FromAll(tail[1..]) + rest);
    } else {
      assert FromAll(tail) + rest == rest;
    }
  }

  /** The last mark that shows. */
  lemma {:induction false} LastShown(ms: seq<Mark>) returns (a: seq<Mark>, m: Mark, tail: seq<Mark>)
    requires ToAll(ms) != []
    ensures ms == a + [m] + tail && !m.Dropped? && (forall d | d in tail :: d.Dropped?)
    ensures ToAll(ms) == ToAll(a) + To(m) && |To(m)| == 1
    decreases |ms|
  {
    a, m, tail := ms[..|ms| - 1], ms[|ms| - 1], [];
    FromSnoc(a, m);
    assert ms == a + [m];
    if m.Dropped? {
      var t;
      a, m, t := LastShown(a);
      tail := t + [Dropped];
      assert ms == a + [m] + tail;
    }
  }

  // ---- the reflow lays out ----

  /** What the marks made so far have to do with the page. */
  ghost predicate Laid(font: Font, ms: seq<Mark>, p: Page, rest: seq<Unit>, width: nat) {
    && ToAll(ms) == p.out && LineWidth(font, p.out) == p.col
    && BreaksOk(font, ms, rest, width)
    && (EndsInsideWord(ms) && rest != [] ==> !IsWordUnit(rest[0]))
  }

  lemma KeepLaid(font: Font, ms: seq<Mark>, p: Page, m: Mark, rest: seq<Unit>, width: nat, col: nat)
    requires Laid(font, ms, p, From(m) + rest, width) && MarkOk(m) && !IsBreak(m)
    requires (m.Kept? ==> !IsWordUnit(m.u)) && col == LineWidth(font, p.out + To(m))
    ensures Laid(font, ms + [m], Page(p.out + To(m), col), rest, width)
  {
    hide BreaksOk, LineWidth;
    FromSnoc(ms, m);
    BreaksSnoc(font, ms, m, rest, width);
  }

  /** A blank that does not fit on the line gives way to the break. */
  lemma SwapLaid(font: Font, ms: seq<Mark>, p: Page, blank: Rune, rest: seq<Unit>, width: nat)
    requires Laid(font, ms, p, [Vis(blank)] + rest, width) && (blank == SPACE || blank == TAB) && p.col >= width
    ensures Laid(font, ms + [Swapped(blank)], Page(p.out + [Vis(NEWLINE)], 0), rest, width)
  {
    hide BreaksOk, LineWidth, BreakOk;
    FromSnoc(ms, Swapped(blank));
    LineWidthSnoc(font, p.out, Vis(NEWLINE));
    LastBreak(font, ms, Swapped(blank), rest, width);
    BreaksSnoc(font, ms, Swapped(blank), rest, width);
  }

  lemma {:induction false} NextWordIs(font: Font, rs: seq<Rune>, rest: seq<Unit>)
    requires IsWord(rs) && (rest != [] ==> !IsWordUnit(rest[0]))
    ensures WordWidth(font, Visible(rs) + rest) == font.Width(rs)
    ensures rs != [] ==> NextWord(font, Visible(rs) + rest) == font.Width(rs)
  {
    if rs == [] {
      assert Visible(rs) + rest == rest;
    } else {
      assert rs[0] in rs && Visible(rs) + rest == [Vis(rs[0])] + (Visible(rs[1..]) + rest);
      NextWordIs(font, rs[1..], rest);
    }
  }

  /** The break before a word that does not fit: it takes the place of the blank before it, if there is one. */
  lemma BreakLaid(font: Font, ms: seq<Mark>, p: Page, rs: seq<Rune>, rest: seq<Unit>, width: nat)
    returns (ms': seq<Mark>)
    requires Laid(font, ms, p, Visible(rs) + rest, width) && IsWord(rs) && rs != []
    requires rest != [] ==> !IsWordUnit(rest[0])
    requires p.col > 0 && p.col + font.Width(rs) > width
    ensures Laid(font, ms', NextLine(p), Visible(rs) + rest, width) && FromAll(ms') == FromAll(ms)
  {
    hide BreaksOk, LineWidth, BreakOk, NextWord, WordWidth;
    var ahead := Visible(rs) + rest;
    NextWordIs(font, rs, rest);
    assert rs[0] in rs && ahead[0] == Vis(rs[0]);
    LineWidthSnoc(font, Trim(p.out), Vis(NEWLINE));
    if p.out != [] && p.out[|p.out| - 1] == Vis(SPACE) {
      var a, m, tail := LastShown(ms);
      ms' := SwapLast(font, a, m, tail, p, ahead, width);
    } else {
      ms' := ms + [Inserted];
      FromSnoc(ms, Inserted);
      LastBreak(font, ms, Inserted, ahead, width);
      assert From(Inserted) + ahead == ahead;
      BreaksSnoc(font, ms, Inserted, ahead, width);
    }
  }

  lemma SwapLast(font: Font, a: seq<Mark>, m: Mark, tail: seq<Mark>, p: Page, ahead: seq<Unit>, width: nat)
    returns (ms': seq<Mark>)
    requires BreaksOk(font, a + [m] + tail, ahead, width) && forall d | d in tail :: d.Dropped?
    requires p.out == ToAll(a) + To(m) && To(m) == [Vis(SPACE)] && LineWidth(font, p.out) == p.col
    requires p.col + NextWord(font, ahead) > width
    ensures FromAll(ms') == FromAll(a + [m] + tail) && ToAll(ms') == NextLine(p).out
    ensures BreaksOk(font, ms', ahead, width) && !EndsInsideWord(ms')
  {
    hide BreaksOk, LineWidth, NextWord;
    var swap := Swapped(if m.Tabbed? then TAB else SPACE);
    ms' := a + [swap] + tail;
    LineWidthSnoc(font, ToAll(a), Vis(SPACE));
    DroppedShowNothing(tail, font, ahead);
    BlankGivesWay(font, a, m, tail, ahead, width);
    FromSnoc(a, m);
    FromSnoc(a, swap);
    FromAppend(a + [m], tail);
    FromAppend(a + [swap], tail);
    if tail != [] {
      assert tail[|tail| - 1] in tail;
    }
    assert Trim(p.out) == ToAll(a);
  }

  function KeptAll(rs: seq<Rune>): (ms: seq<Mark>)
    ensures |ms| == |rs|
  {
    seq(|rs|, i requires 0 <= i < |rs| => Kept(Vis(rs[i])))
  }

  lemma {:induction false} KeptMarks(rs: seq<Rune>)
    ensures FromAll(KeptAll(rs)) == Visible(rs) && ToAll(KeptAll(rs)) == Visible(rs)
  {
    if rs != [] {
      assert KeptAll(rs)[1..] == KeptAll(rs[1..]);
      KeptMarks(rs[1..]);
    }
  }

  /** Runes of a word kept as they are. */
  lemma KeepWord(font: Font, ms: seq<Mark>, rs: seq<Rune>, rest: seq<Unit>, width: nat)
    requires BreaksOk(font, ms, Visible(rs) + rest, width) && IsWord(rs)
    ensures BreaksOk(font, ms + KeptAll(rs), rest, width)
    ensures FromAll(ms + KeptAll(rs)) == FromAll(ms) + Visible(rs)
    ensures ToAll(ms + KeptAll(rs)) == ToAll(ms) + Visible(rs)
  {
    hide BreaksOk, FromAll, ToAll;
    KeptMarks(rs);
    FromAppend(ms, KeptAll(rs));
    KeepRunes(font, ms, rs, rest, width);
  }

  lemma {:induction false} KeepRunes(font: Font, ms: seq<Mark>, rs: seq<Rune>, rest: seq<Unit>, width: nat)
    requires BreaksOk(font, ms, Visible(rs) + rest, width) && IsWord(rs)
    ensures BreaksOk(font, ms + KeptAll(rs), rest, width)
    decreases |rs|
  {
    hide BreaksOk, FromAll, ToAll;
    if rs == [] {
      assert Visible(rs) + rest == rest && ms + KeptAll(rs) == ms;
    } else {
      var m, more := Kept(Vis(rs[0])), Visible(rs[1..]) + rest;
      assert rs[0] in rs && Visible(rs) + rest == From(m) + more;
      BreaksSnoc(font, ms, m, more, width);
      KeepRunes(font, ms + [m], rs[1..], rest, width);
      assert ms + [m] + KeptAll(rs[1..]) == ms + KeptAll(rs);
    }
  }

  /** The part of a word that goes on one line, and the break behind it: the next rune would not have fitted. */
  lemma ChunkLaid(font: Font, ms: seq<Mark>, rs: seq<Rune>, n: nat, rest: seq<Unit>, width: nat)
    returns (ms': seq<Mark>)
    requires BreaksOk(font, ms, Visible(rs) + rest, width) && IsWord(rs)
    requires rs != [] && n == CutLen(font, rs, width) < |rs| && LineWidth(font, ToAll(ms)) == 0
    ensures BreaksOk(font, ms', Visible(rs[n..]) + rest, width)
    ensures FromAll(ms') == FromAll(ms) + Visible(rs[..n])
    ensures ToAll(ms') == ToAll(ms) + Visible(rs[..n]) + [Vis(NEWLINE)] && LineWidth(font, ToAll(ms')) == 0
  {
    hide BreaksOk, LineWidth, BreakOk, FromAll, ToAll, CutLen, Visible;
    var head, tail := rs[..n], rs[n..];
    SplitVisible(rs, n);
    Assoc(Visible(head), Visible(tail), rest);
    KeepWord(font, ms, head, Visible(tail) + rest, width);
    var kept := ms + KeptAll(head);
    assert rs[n - 1] in rs && kept[|kept| - 1] == Kept(Vis(rs[n - 1]));
    LineWidthWord(font, ToAll(ms), head);
    CutIsFull(font, rs, width);
    assert tail[0] in rs;
    ms' := kept + [Inserted];
    CutHere(font, kept, tail, rest, width);
  }

  /** A break inside a word, before a rune that did not fit. */
  lemma CutHere(font: Font, kept: seq<Mark>, tail: seq<Rune>, rest: seq<Unit>, width: nat)
    requires BreaksOk(font, kept, Visible(tail) + rest, width) && EndsInsideWord(kept)
    requires tail != [] && IsWordRune(tail[0]) && LineWidth(font, ToAll(kept)) + font.width(tail[0]) > width
    ensures BreaksOk(font, kept + [Inserted], Visible(tail) + rest, width)
    ensures FromAll(kept + [Inserted]) == FromAll(kept)
    ensures ToAll(kept + [Inserted]) == ToAll(kept) + [Vis(NEWLINE)]
    ensures LineWidth(font, ToAll(kept + [Inserted])) == 0
  {
    hide BreaksOk, LineWidth, BreakOk, FromAll, ToAll;
    var ahead := Visible(tail) + rest;
    assert ahead == [Vis(tail[0])] + (Visible(tail[1..]) + rest);
    InnerBreak(font, kept, tail[0], Visible(tail[1..]) + rest, width);
    assert From(Inserted) + ahead == ahead;
    BreaksSnoc(font, kept, Inserted, ahead, width);
    FromSnoc(kept, Inserted);
    LineWidthSnoc(font, ToAll(kept), Vis(NEWLINE));
    assert FromAll(kept) + [] == FromAll(kept);
  }

  lemma SplitVisible(rs: seq<Rune>, n: nat)
    requires n <= |rs|
    ensures Visible(rs) == Visible(rs[..n]) + Visible(rs[n..])
  {
  }

  /** The cut comes where the next rune is too much. */
  lemma CutIsFull(font: Font, rs: seq<Rune>, width: nat)
    requires rs != [] && CutLen(font, rs, width) < |rs|
    ensures var n := CutLen(font, rs, width); font.Width(rs[..n]) + font.width(rs[n]) > width
  {
    if FitLen(font, rs, width) == 0 {
      assert rs[..1] == [rs[0]];
      WidthOne(font, rs[0]);
      assert rs[..0] == [];
    }
  }

  lemma {:induction false} ChunksLaid(font: Font, ms: seq<Mark>, rs: seq<Rune>, rest: seq<Unit>, width: nat)
    returns (ms': seq<Mark>)
    requires BreaksOk(font, ms, Visible(rs) + rest, width) && IsWord(rs) && rs != []
    requires LineWidth(font, ToAll(ms)) == 0
    ensures BreaksOk(font, ms', rest, width)
    ensures FromAll(ms') == FromAll(ms) + Visible(rs) && ToAll(ms') == ToAll(ms) + Chunked(font, rs, width)
    decreases |rs|
  {
    hide BreaksOk, LineWidth, FromAll, ToAll, CutLen;
    var n := CutLen(font, rs, width);
    if n == |rs| {
      KeepWord(font, ms, rs, rest, width);
      ms' := ms + KeptAll(rs);
    } else {
      var cut := ChunkLaid(font, ms, rs, n, rest, width);
      ms' := ChunksLaid(font, cut, rs[n..], rest, width);
      SplitVisible(rs, n);
      Assoc(FromAll(ms), Visible(rs[..n]), Visible(rs[n..]));
      var head, more := Visible(rs[..n]) + [Vis(NEWLINE)], Chunked(font, rs[n..], width);
      assert ToAll(ms) + Visible(rs[..n]) + [Vis(NEWLINE)] == ToAll(ms) + head;
      Assoc(ToAll(ms), head, more);
    }
  }

  /** A word put out. */
  lemma WordLaid(font: Font, ms: seq<Mark>, p: Page, rs: seq<Rune>, rest: seq<Unit>, width: nat)
    returns (ms': seq<Mark>)
    requires Laid(font, ms, p, Visible(rs) + rest, width) && IsWord(rs) && rs != []
    requires (rest != [] ==> !IsWordUnit(rest[0])) && PageOk(font, p, width) && width > 0
    ensures Laid(font, ms', PlaceWord(font, p, rs, width), rest, width)
    ensures FromAll(ms') == FromAll(ms) + Visible(rs)
  {
    hide BreaksOk, LineWidth, FromAll, ToAll, Chunked, LinesOk, Trim;
    PlaceWordOk(font, p, rs, width);
    var needed := font.Width(rs);
    var q, at := p, ms;
    if p.col > 0 && p.col + needed > width {
      at := BreakLaid(font, ms, p, rs, rest, width);
      q := NextLine(p);
    }
    if needed <= width {
      KeepWord(font, at, rs, rest, width);
      ms' := at + KeptAll(rs);
    } else {
      ms' := ChunksLaid(font, at, rs, rest, width);
    }
  }

  /** Whatever the text, the reflow is a layout of it. */
  lemma {:induction false} ReflowLaid(font: Font, text: seq<Rune>, ms: seq<Mark>, p: Page, width: nat)
    returns (ms': seq<Mark>)
    requires Laid(font, ms, p, Units(text), width) && PageOk(font, p, width) && width > 0
    ensures Laid(font, ms', Reflow(font, text, p, width), [], width)
    ensures FromAll(ms') == FromAll(ms) + Units(text)
    decreases |text|
  {
    hide Laid, PageOk, PlaceWord, PlaceBlank, EscapeLen, WordLen, FromAll, Visible;
    if text == [] {
      assert FromAll(ms) + [] == FromAll(ms);
      return ms;
    }
    if text[0] == ESCAPE {
      var n := EscapeLen(text);
      var u := Esc(text[..n]);
      UnitLaid(font, ms, p, u, Units(text[n..]), width);
      PlaceEscapeOk(font, p, text[..n], width);
      ms' := ReflowLaid(font, text[n..], ms + [Kept(u)], Page(p.out + [u], p.col), width);
      Assoc(FromAll(ms), [u], Units(text[n..]));
      return;
    }
    if IsWordRune(text[0]) {
      var n := WordLen(text);
      WordAhead(text, n);
      var next := WordLaid(font, ms, p, text[..n], Units(text[n..]), width);
      PlaceWordOk(font, p, text[..n], width);
      ms' := ReflowLaid(font, text[n..], next, PlaceWord(font, p, text[..n], width), width);
      Assoc(FromAll(ms), Visible(text[..n]), Units(text[n..]));
      return;
    }
    var m, q := BlankLaid(font, ms, p, text[0], Units(text[1..]), width);
    ms' := ReflowLaid(font, text[1..], ms + [m], q, width);
    FromSnoc(ms, m);
    Assoc(FromAll(ms), [Vis(text[0])], Units(text[1..]));
  }

  lemma WordAhead(text: seq<Rune>, n: nat)
    requires text != [] && IsWordRune(text[0]) && n == WordLen(text)
    ensures n > 0 && Units(text) == Visible(text[..n]) + Units(text[n..]) && IsWord(text[..n])
    ensures Units(text[n..]) != [] ==> !IsWordUnit(Units(text[n..])[0])
  {
    UnitsAtWord(text, n);
    if n < |text| {
      assert text[n..][0] == text[n];
    }
  }

  lemma UnitLaid(font: Font, ms: seq<Mark>, p: Page, u: Unit, rest: seq<Unit>, width: nat)
    requires Laid(font, ms, p, [u] + rest, width) && u.Esc?
    ensures Laid(font, ms + [Kept(u)], Page(p.out + [u], p.col), rest, width)
    ensures FromAll(ms + [Kept(u)]) == FromAll(ms) + [u]
  {
    LineWidthSnoc(font, p.out, u);
    FromSnoc(ms, Kept(u));
    KeepLaid(font, ms, p, Kept(u), rest, width, p.col);
  }

  /** One white space rune. */
  lemma BlankLaid(font: Font, ms: seq<Mark>, p: Page, r: Rune, rest: seq<Unit>, width: nat)
    returns (m: Mark, q: Page)
    requires Laid(font, ms, p, [Vis(r)] + rest, width) && PageOk(font, p, width) && width > 0
    requires r == SPACE || r == TAB || r == NEWLINE || r == RETURN
    ensures q == if r == NEWLINE then Page(p.out + [Vis(NEWLINE)], 0)
                 else if r == RETURN then p else PlaceBlank(p, width)
    ensures Laid(font, ms + [m], q, rest, width) && From(m) == [Vis(r)] && PageOk(font, q, width)
  {
    hide Laid, PageOk;
    if r == NEWLINE {
      m, q := Kept(Vis(NEWLINE)), Page(p.out + [Vis(NEWLINE)], 0);
      HardNewlineOk(font, p, width);
      LineWidthSnoc(font, p.out, Vis(NEWLINE));
      KeepLaid(font, ms, p, m, rest, width, 0);
    } else if r == RETURN {
      m, q := Dropped, p;
      assert p.out + [] == p.out;
      LaidColumn(font, ms, p, [Vis(r)] + rest, width);
      KeepLaid(font, ms, p, m, rest, width, p.col);
    } else {
      q := PlaceBlank(p, width);
      PlaceBlankOk(font, p, width);
      if p.col >= width {
        m := Swapped(r);
        SwapLaid(font, ms, p, r, rest, width);
      } else {
        m := if r == TAB then Tabbed else Kept(Vis(SPACE));
        LaidColumn(font, ms, p, [Vis(r)] + rest, width);
        LineWidthSnoc(font, p.out, Vis(SPACE));
        KeepLaid(font, ms, p, m, rest, width, p.col + 1);
      }
    }
  }

  lemma LaidColumn(font: Font, ms: seq<Mark>, p: Page, rest: seq<Unit>, width: nat)
    requires Laid(font, ms, p, rest, width)
    ensures LineWidth(font, p.out) == p.col
  {
  }

  /**
   The result is the text with TABs as spaces, CRs gone and nothing else changed but for the
   breaks. At a break one newline comes in and one blank goes, or none; and every break had to
   be: the line would have been too wide without it.
   */
  lemma WrappedIsLayout(font: Font, text: seq<Rune>, width: nat) returns (ms: seq<Mark>)
    requires width > 0
    ensures IsLayout(font, Units(text), Wrapped(font, text, width), ms, width)
  {
    hide Reflow, Units, BreaksOk;
    LineWidthNothing(font);
    assert BreaksOk(font, [], Units(text), width) by { NoBreaks(font, Units(text), width); }
    assert PageOk(font, EMPTY_PAGE, width) by { EmptyOk(font, width); }
    ms := ReflowLaid(font, text, [], EMPTY_PAGE, width);
    assert [] + Units(text) == Units(text);
  }

  lemma NoBreaks(font: Font, rest: seq<Unit>, width: nat)
    ensures BreaksOk(font, [], rest, width)
  {
  }

  lemma EmptyOk(font: Font, width: nat)
    ensures PageOk(font, EMPTY_PAGE, width)
  {
  }
}
