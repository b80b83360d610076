/**
 Reflowing text to a width. Escapes take no columns; a word that does not fit the
 rest of its line goes to the next one, and a word wider than the line is cut.
 */
module Wrapping {
  import opened Utf8
  import opened Terminal
  import opened Basics

  const TAB: Rune := 9
  const NEWLINE: Rune := 10
  const RETURN: Rune := 13
  const ESCAPE: Rune := 27
  const MAX_ESCAPE := 64

  // ---- escapes ----

  // The original reads escapes by bytes; these functions read bytes and runes alike.

  predicate IsFinal(r: int) {
    0x40 <= r <= 0x7E
  }

  /** One past the final byte of a CSI, or the limit. */
  function CsiEnd(s: seq<int>, j: nat, limit: nat): (e: nat)
    requires j <= limit <= |s|
    ensures j <= e <= limit
    decreases limit - j
  {
    if j == limit then j else if IsFinal(s[j]) then j + 1 else CsiEnd(s, j + 1, limit)
  }

  /** Length of the OSC terminator at j: BEL, or ESC and a backslash; 0 if none is there. */
  function OscStop(s: seq<int>, j: nat): nat
    requires j < |s|
  {
    if s[j] == 7 then 1 else if s[j] == ESCAPE && j + 1 < |s| && s[j + 1] == 0x5C then 2 else 0
  }

  function OscEnd(s: seq<int>, j: nat, limit: nat): (e: nat)
    requires j <= limit <= |s|
    ensures j <= e <= limit
    decreases limit - j
  {
    if j == limit then j
    else if OscStop(s[..limit], j) > 0 then j + OscStop(s[..limit], j)
    else OscEnd(s, j + 1, limit)
  }

  /** How much of s, which starts with ESC, is its escape. */
  function EscapeLen(s: seq<int>): (n: nat)
    requires s != [] && s[0] == ESCAPE
    ensures 1 <= n <= |s| && n <= MAX_ESCAPE
  {
    var limit := if |s| < MAX_ESCAPE then |s| else MAX_ESCAPE;
    if limit == 1 then 1
    else if s[1] == 0x5B then CsiEnd(s, 2, limit)
    else if s[1] == 0x5D then OscEnd(s, 2, limit)
    else 2
  }

  /**
   A whole escape: CSI up to its final byte (section 5.4 of ECMA-48), OSC up to its
   terminator, or ESC with one more byte, not ending in a space. It is within the limit
   as bytes, which is what the original counts; an OSC may hold any runes.
   */
  ghost predicate Whole(b: seq<Rune>) {
    && 2 <= |b| && |EncodeAll(b)| <= MAX_ESCAPE && b[0] == ESCAPE && b[|b| - 1] != SPACE
    && if b[1] == 0x5B then
         |b| >= 3 && IsFinal(b[|b| - 1]) && forall k | 2 <= k < |b| - 1 :: !IsFinal(b[k])
       else if b[1] == 0x5D then
         exists m: nat {:trigger OscStop(b, m)} ::
           2 <= m < |b| && OscStop(b, m) > 0 && m + OscStop(b, m) == |b| && forall k | 2 <= k < m :: OscStop(b, k) == 0
       else |b| == 2 && b[1] < 0x80
  }

  lemma {:induction false} CsiEndAt(s: seq<int>, j: nat, m: nat, limit: nat)
    requires j <= m < limit <= |s| && IsFinal(s[m])
    requires forall k | j <= k < m :: !IsFinal(s[k])
    ensures CsiEnd(s, j, limit) == m + 1
    decreases m - j
  {
    if j < m {
      CsiEndAt(s, j + 1, m, limit);
    }
  }

  lemma {:induction false} OscEndAt(s: seq<int>, j: nat, m: nat, limit: nat)
    requires j <= m < limit <= |s| && OscStop(s[..limit], m) > 0
    requires forall k | j <= k < m :: OscStop(s[..limit], k) == 0
    ensures OscEnd(s, j, limit) == m + OscStop(s[..limit], m)
    decreases m - j
  {
    if j < m {
      OscEndAt(s, j + 1, m, limit);
    }
  }

  lemma {:induction false} NoShorter(rs: seq<Rune>)
    ensures |rs| <= |EncodeAll(rs)|
  {
    if rs != [] {
      NoShorter(rs[1..]);
    }
  }

  /** A whole escape is taken as it is, whatever follows. */
  lemma WholeStands(b: seq<Rune>, rest: seq<Rune>)
    requires Whole(b)
    ensures EscapeLen(b + rest) == |b|
  {
    NoShorter(b);
    var s := b + rest;
    var limit := if |s| < MAX_ESCAPE then |s| else MAX_ESCAPE;
    if b[1] == 0x5B {
      CsiEndAt(s, 2, |b| - 1, limit);
    } else if b[1] == 0x5D {
      var m: nat :| 2 <= m < |b| && OscStop(b, m) > 0 && m + OscStop(b, m) == |b|
                    && forall k | 2 <= k < m :: OscStop(b, k) == 0;
      assert forall k: nat | k <= m :: OscStop(s[..limit], k) == OscStop(b, k);
      OscEndAt(s, 2, m, limit);
    }
  }

  // ---- escapes that do not end ----

  lemma {:induction false} CsiRunsOn(s: seq<int>, j: nat, limit: nat)
    requires j <= limit <= |s| && forall k | j <= k < limit :: !IsFinal(s[k])
    ensures CsiEnd(s, j, limit) == limit
    decreases limit - j
  {
    if j < limit {
      CsiRunsOn(s, j + 1, limit);
    }
  }

  lemma {:induction false} OscRunsOn(s: seq<int>, j: nat, limit: nat)
    requires j <= limit <= |s| && forall k | j <= k < limit :: OscStop(s[..limit], k) == 0
    ensures OscEnd(s, j, limit) == limit
    decreases limit - j
  {
    if j < limit {
      OscRunsOn(s, j + 1, limit);
    }
  }

  /** An escape that does not end within 64 bytes is as long as that, or as the text; ESC and any other byte are one. */
  lemma CutOff(s: seq<int>)
    requires s != [] && s[0] == ESCAPE
    ensures var limit := if |s| < 64 then |s| else 64;
      && (|s| >= 2 && s[1] == 0x5B && (forall k | 2 <= k < limit :: !IsFinal(s[k])) ==> EscapeLen(s) == limit)
      && (|s| >= 2 && s[1] == 0x5D && (forall k | 2 <= k < limit :: OscStop(s[..limit], k) == 0) ==>
            EscapeLen(s) == limit)
      && (|s| >= 2 && s[1] != 0x5B && s[1] != 0x5D ==> EscapeLen(s) == 2)
      && (|s| == 1 ==> EscapeLen(s) == 1)
  {
    var limit := if |s| < 64 then |s| else 64;
    if |s| >= 2 && s[1] == 0x5B && forall k | 2 <= k < limit :: !IsFinal(s[k]) {
      CsiRunsOn(s, 2, limit);
    }
    if |s| >= 2 && s[1] == 0x5D && forall k | 2 <= k < limit :: OscStop(s[..limit], k) == 0 {
      OscRunsOn(s, 2, limit);
    }
  }

  // ---- whole escapes as bytes ----

  /** Only an ASCII rune gives a byte below 128. */
  lemma RuneBytes(r: Rune, rest: seq<Byte>, k: nat)
    requires k < |Encode(r)|
    ensures (Encode(r) + rest)[k] == Encode(r)[k]
    ensures if r < 0x80 then Encode(r) == [r] else Encode(r)[k] >= 0x80
  {
    EncodeShape(r);
    EncodeLong(r);
    assert Encode(r)[k] in Encode(r);
  }

  /** The search for a final byte passes the bytes of runes that are none. */
  lemma {:induction false} CsiEndBytes(before: seq<Byte>, mid: seq<Rune>, final: Byte, rest: seq<Byte>, limit: nat)
    requires IsFinal(final) && forall r | r in mid :: !IsFinal(r)
    requires |before| + |EncodeAll(mid)| < limit <= |before| + |EncodeAll(mid)| + 1 + |rest|
    ensures CsiEnd(before + EncodeAll(mid) + [final] + rest, |before|, limit) == |before| + |EncodeAll(mid)| + 1
    decreases |mid|
  {
    var s := before + EncodeAll(mid) + [final] + rest;
    if mid == [] {
      assert s[|before|] == final;
    } else {
      var e, more := Encode(mid[0]), EncodeAll(mid[1..]);
      assert mid[0] in mid;
      forall k | |before| <= k < |before| + |e|
        ensures !IsFinal(s[k])
      {
        RuneBytes(mid[0], more, k - |before|);
        assert s[k] == e[k - |before|];
      }
      CsiEndPasses(s, |before|, |e|, limit);
      CsiEndBytes(before + e, mid[1..], final, rest, limit);
      assert before + e + more + [final] + rest == s;
    }
  }

  lemma {:induction false} CsiEndPasses(s: seq<int>, j: nat, n: nat, limit: nat)
    requires j + n <= limit <= |s| && forall k | j <= k < j + n :: !IsFinal(s[k])
    ensures CsiEnd(s, j, limit) == CsiEnd(s, j + n, limit)
    decreases n
  {
    if n > 0 {
      CsiEndPasses(s, j + 1, n - 1, limit);
    }
  }

  /** What ends an OSC: its first terminator is its end. */
  ghost predicate Terminated(b: seq<Rune>) {
    exists m: nat {:trigger OscStop(b, m)} ::
      m < |b| && OscStop(b, m) > 0 && m + OscStop(b, m) == |b| && forall k | 0 <= k < m :: OscStop(b, k) == 0
  }

  lemma TerminatedTail(b: seq<Rune>)
    requires Terminated(b) && OscStop(b, 0) == 0
    ensures |b| > 1 && Terminated(b[1..])
  {
    var m: nat :| m < |b| && OscStop(b, m) > 0 && m + OscStop(b, m) == |b|
                  && forall k | 0 <= k < m :: OscStop(b, k) == 0;
    var t := b[1..];
    assert forall k: nat | k < |t| :: OscStop(t, k) == OscStop(b, k + 1);
    assert OscStop(t, m - 1) > 0;
  }

  lemma {:induction false} OscEndBytes(before: seq<Byte>, b: seq<Rune>, rest: seq<Byte>, limit: nat)
    requires Terminated(b) && |before| + |EncodeAll(b)| <= limit <= |before| + |EncodeAll(b)| + |rest|
    ensures OscEnd(before + EncodeAll(b) + rest, |before|, limit) == |before| + |EncodeAll(b)|
    decreases |b|
  {
    hide Encode;
    var s, j := before + EncodeAll(b) + rest, |before|;
    var e, more := Encode(b[0]), EncodeAll(b[1..]);
    var read := s[..limit];
    assert EncodeAll(b) == e + more;
    RuneBytes(b[0], more, 0);
    if b[0] < 0x80 {
      NextByte(before, b, rest, limit);
    }
    if OscStop(b, 0) > 0 {
      OscLast(b);
    } else {
      forall k | j <= k < j + |e|
        ensures OscStop(read, k) == 0
      {
        if b[0] >= 0x80 {
          RuneBytes(b[0], more, k - j);
          assert read[k] == e[k - j];
        }
      }
      TerminatedTail(b);
      OscEndPasses(s, j, |e|, limit);
      OscEndBytes(before + e, b[1..], rest, limit);
      assert before + e + more + rest == s;
    }
  }

  /** A terminator that is first is all there is, and one byte a rune. */
  lemma OscLast(b: seq<Rune>)
    requires Terminated(b) && OscStop(b, 0) > 0
    ensures OscStop(b, 0) == |b| == |EncodeAll(b)|
  {
    var m: nat :| m < |b| && OscStop(b, m) > 0 && m + OscStop(b, m) == |b|
                  && forall k | 0 <= k < m :: OscStop(b, k) == 0;
    assert m == 0;
    EncodeLong(b[0]);
    if |b| == 2 {
      FirstTwo(b);
      assert EncodeAll(b[2..]) == [];
    } else {
      assert b[1..] == [];
    }
  }

  /** Behind an ASCII rune comes the first byte of the next, which is ASCII only if that is. */
  lemma NextByte(before: seq<Byte>, b: seq<Rune>, rest: seq<Byte>, limit: nat)
    requires Terminated(b) && b[0] < 0x80
    requires |before| + |EncodeAll(b)| <= limit <= |before| + |EncodeAll(b)| + |rest|
    ensures OscStop((before + EncodeAll(b) + rest)[..limit], |before|) == OscStop(b, 0)
  {
    hide Encode;
    var read, j := (before + EncodeAll(b) + rest)[..limit], |before|;
    EncodeLong(b[0]);
    assert EncodeAll(b) == [b[0]] + EncodeAll(b[1..]);
    assert read[j] == b[0];
    if b[0] == ESCAPE {
      EscapeGoesOn(b);
      var more := EncodeAll(b[2..]);
      assert b[1..][1..] == b[2..];
      RuneBytes(b[1], more, 0);
      EncodeLong(b[1]);
      assert read[j + 1] == Encode(b[1])[0];
    }
  }

  lemma EscapeGoesOn(b: seq<Rune>)
    requires Terminated(b) && b[0] == ESCAPE
    ensures |b| >= 2
  {
  }

  lemma {:induction false} OscEndPasses(s: seq<int>, j: nat, n: nat, limit: nat)
    requires j + n <= limit <= |s|
    requires forall k | j <= k < j + n :: OscStop(s[..limit], k) == 0
    ensures OscEnd(s, j, limit) == OscEnd(s, j + n, limit)
    decreases n
  {
    if n > 0 {
      OscEndPasses(s, j + 1, n - 1, limit);
    }
  }

  /** The bytes of a whole escape are taken as they are too: the limit counts bytes and no rune is torn. */
  lemma WholeStandsInBytes(b: seq<Rune>, rest: seq<Byte>)
    requires Whole(b)
    ensures EscapeLen(EncodeAll(b) + rest) == |EncodeAll(b)|
  {
    hide Encode, EncodeAll, EscapeLen;
    var tail := b[2..];
    assert b[1] < 0x80;
    FirstTwo(b);
    if b[1] == 0x5B {
      var mid, last := b[2..|b| - 1], b[|b| - 1];
      assert tail == mid + [last];
      CsiInBytes(mid, last, rest);
    } else if b[1] == 0x5D {
      var m: nat :| 2 <= m < |b| && OscStop(b, m) > 0 && m + OscStop(b, m) == |b|
                    && forall k | 2 <= k < m :: OscStop(b, k) == 0;
      assert forall k: nat | k < |tail| :: OscStop(tail, k) == OscStop(b, k + 2);
      assert OscStop(tail, m - 2) > 0;
      OscInBytes(tail, rest);
    } else {
      ShortInBytes(b[1], rest);
    }
  }

  lemma CsiInBytes(mid: seq<Rune>, last: Rune, rest: seq<Byte>)
    requires IsFinal(last) && forall r | r in mid :: !IsFinal(r)
    requires 2 + |EncodeAll(mid + [last])| <= MAX_ESCAPE
    ensures var e := [ESC, 0x5B] + EncodeAll(mid + [last]);
      EscapeLen(e + rest) == |e|
  {
    hide Encode, EncodeAll;
    EncodeAllAppend(mid, [last]);
    EncodeAllOne(last);
    EncodeLong(last);
    var s := [ESC, 0x5B] + EncodeAll(mid + [last]) + rest;
    var limit := if |s| < MAX_ESCAPE then |s| else MAX_ESCAPE;
    assert s == [ESC, 0x5B] + EncodeAll(mid) + [last] + rest;
    CsiEndBytes([ESC, 0x5B], mid, last, rest, limit);
  }

  lemma OscInBytes(tail: seq<Rune>, rest: seq<Byte>)
    requires Terminated(tail) && 2 + |EncodeAll(tail)| <= MAX_ESCAPE
    ensures var e := [ESC, 0x5D] + EncodeAll(tail);
      EscapeLen(e + rest) == |e|
  {
    hide Encode, EncodeAll, Terminated;
    var s := [ESC, 0x5D] + EncodeAll(tail) + rest;
    var limit := if |s| < MAX_ESCAPE then |s| else MAX_ESCAPE;
    OscEndBytes([ESC, 0x5D], tail, rest, limit);
  }

  lemma ShortInBytes(b: Byte, rest: seq<Byte>)
    requires b != 0x5B && b != 0x5D
    ensures EscapeLen([ESC, b] + EncodeAll([]) + rest) == 2 == |[ESC, b] + EncodeAll([])|
  {
    assert ([ESC, b] + EncodeAll([]) + rest)[1] == b;
  }

  lemma FirstTwo(b: seq<Rune>)
    requires |b| >= 2 && b[0] < 0x80 && b[1] < 0x80
    ensures EncodeAll(b) == [b[0], b[1]] + EncodeAll(b[2..])
  {
    EncodeLong(b[0]);
    EncodeLong(b[1]);
    assert b[1..][1..] == b[2..];
    assert EncodeAll(b) == [b[0]] + ([b[1]] + EncodeAll(b[2..]));
  }

  // ---- text as units ----

  datatype Unit = Vis(r: Rune) | Esc(body: seq<Rune>)

  function Units(text: seq<Rune>): (us: seq<Unit>)
    decreases |text|
  {
    if text == [] then []
    else if text[0] == ESCAPE then [Esc(text[..EscapeLen(text)])] + Units(text[EscapeLen(text)..])
    else [Vis(text[0])] + Units(text[1..])
  }

  function RawUnit(u: Unit): seq<Rune> {
    match u
    case Vis(r) => [r]
    case Esc(body) => body
  }

  function Raw(us: seq<Unit>): seq<Rune> {
    if us == [] then [] else RawUnit(us[0]) + Raw(us[1..])
  }

  ghost predicate WholeUnit(u: Unit) {
    match u
    case Vis(r) => r != ESCAPE
    case Esc(body) => Whole(body)
  }

  ghost predicate WellFormed(us: seq<Unit>) {
    forall u | u in us :: WholeUnit(u)
  }

  lemma {:induction false} RawAppend(a: seq<Unit>, b: seq<Unit>)
    ensures Raw(a + b) == Raw(a) + Raw(b)
  {
    if a == [] {
      assert a + b == b;
    } else {
      assert (a + b)[1..] == a[1..] + b;
      RawAppend(a[1..], b);
    }
  }

  lemma RawOne(u: Unit)
    ensures Raw([u]) == RawUnit(u)
  {
    assert Raw([u][1..]) == [];
  }

  /** Reading a printed list of whole units gives the list back. */
  lemma {:induction false} UnitsRaw(us: seq<Unit>)
    requires WellFormed(us)
    ensures Units(Raw(us)) == us
  {
    if us != [] {
      var u, rest := us[0], Raw(us[1..]);
      UnitsRaw(us[1..]);
      var text := RawUnit(u) + rest;
      assert u in us && us == [u] + us[1..];
      match u {
        case Vis(r) =>
          assert text[1..] == rest;
        case Esc(body) =>
          WholeStands(body, rest);
          assert text[..|body|] == body && text[|body|..] == rest;
      }
    }
  }

  function Visible(rs: seq<Rune>): (us: seq<Unit>)
    ensures |us| == |rs|
    ensures forall k | 0 <= k < |rs| :: us[k] == Vis(rs[k])
  {
    if rs == [] then [] else [Vis(rs[0])] + Visible(rs[1..])
  }

  lemma {:induction false} RawVisible(rs: seq<Rune>)
    ensures Raw(Visible(rs)) == rs
  {
    if rs != [] {
      RawVisible(rs[1..]);
      assert Visible(rs)[1..] == Visible(rs[1..]);
    }
  }

  predicate IsWordRune(r: Rune) {
    r != SPACE && r != TAB && r != NEWLINE && r != RETURN && r != ESCAPE
  }

  ghost predicate IsWord(rs: seq<Rune>) {
    forall r | r in rs :: IsWordRune(r)
  }

  function WordLen(text: seq<Rune>): (n: nat)
    ensures n <= |text|
    ensures forall k | 0 <= k < n :: IsWordRune(text[k])
    ensures n < |text| ==> !IsWordRune(text[n])
  {
    if text == [] || !IsWordRune(text[0]) then 0 else 1 + WordLen(text[1..])
  }

  lemma {:induction false} UnitsWord(word: seq<Rune>, rest: seq<Rune>)
    requires IsWord(word)
    ensures Units(word + rest) == Visible(word) + Units(rest)
  {
    if word == [] {
      assert word + rest == rest && Visible(word) + Units(rest) == Units(rest);
    } else {
      assert (word + rest)[1..] == word[1..] + rest && word[0] in word;
      UnitsWord(word[1..], rest);
      assert Visible(word) + Units(rest) == [Vis(word[0])] + (Visible(word[1..]) + Units(rest));
    }
  }

  // ---- the reflow ----

  /** What has been put out, and the column it has reached. */
  datatype Page = Page(out: seq<Unit>, col: nat)

  const EMPTY_PAGE := Page([], 0)

  function Trim(us: seq<Unit>): seq<Unit> {
    if us != [] && us[|us| - 1] == Vis(SPACE) then us[..|us| - 1] else us
  }

  /** How many leading runes fit in `room` columns. */
  function FitLen(font: Font, rs: seq<Rune>, room: nat): (n: nat)
    ensures n <= |rs|
    ensures font.Width(rs[..n]) <= room
    ensures n < |rs| ==> font.Width(rs[..n]) + font.width(rs[n]) > room
  {
    if rs == [] || font.width(rs[0]) > room then 0
    else
      var n := 1 + FitLen(font, rs[1..], room - font.width(rs[0]));
      assert rs[..n][1..] == rs[1..][..n - 1];
      n
  }

  /** Where a word is cut: the longest prefix that fits, or one rune if none does. */
  function CutLen(font: Font, rs: seq<Rune>, width: nat): (n: nat)
    requires rs != []
    ensures 1 <= n <= |rs|
    ensures n == 1 || font.Width(rs[..n]) <= width
  {
    var n := FitLen(font, rs, width);
    if n == 0 then 1 else n
  }

  function Chunked(font: Font, rs: seq<Rune>, width: nat): seq<Unit>
    requires rs != []
    decreases |rs|
  {
    var n := CutLen(font, rs, width);
    if n == |rs| then Visible(rs)
    else Visible(rs[..n]) + [Vis(NEWLINE)] + Chunked(font, rs[n..], width)
  }

  function LastChunkWidth(font: Font, rs: seq<Rune>, width: nat): nat
    requires rs != []
    decreases |rs|
  {
    var n := CutLen(font, rs, width);
    if n == |rs| then font.Width(rs) else LastChunkWidth(font, rs[n..], width)
  }

  function NextLine(p: Page): Page {
    Page(Trim(p.out) + [Vis(NEWLINE)], 0)
  }

  function PlaceWord(font: Font, p: Page, rs: seq<Rune>, width: nat): Page
    requires rs != []
  {
    var needed := font.Width(rs);
    var q := if p.col > 0 && p.col + needed > width then NextLine(p) else p;
    if needed <= width then Page(q.out + Visible(rs), q.col + needed)
    else Page(q.out + Chunked(font, rs, width), LastChunkWidth(font, rs, width))
  }

  function PlaceBlank(p: Page, width: nat): Page {
    if p.col >= width then Page(p.out + [Vis(NEWLINE)], 0) else Page(p.out + [Vis(SPACE)], p.col + 1)
  }

  function Reflow(font: Font, text: seq<Rune>, p: Page, width: nat): Page
    decreases |text|
  {
    if text == [] then p
    else if text[0] == ESCAPE then
      var n := EscapeLen(text);
      Reflow(font, text[n..], Page(p.out + [Esc(text[..n])], p.col), width)
    else if text[0] == NEWLINE then Reflow(font, text[1..], Page(p.out + [Vis(NEWLINE)], 0), width)
    else if text[0] == RETURN then Reflow(font, text[1..], p, width)
    else if text[0] == SPACE || text[0] == TAB then Reflow(font, text[1..], PlaceBlank(p, width), width)
    else
      var n := WordLen(text);
      Reflow(font, text[n..], PlaceWord(font, p, text[..n], width), width)
  }

  function Wrapped(font: Font, text: seq<Rune>, width: nat): seq<Unit> {
    Reflow(font, text, EMPTY_PAGE, width).out
  }

  // ---- lines ----

  /** A blank takes one column, an escape none. */
  function UnitWidth(font: Font, u: Unit): nat {
    match u
    case Vis(r) => if r == SPACE then 1 else font.width(r)
    case Esc(_) => 0
  }

  /** The columns taken by the line that us ends on. */
  function LineWidth(font: Font, us: seq<Unit>): nat {
    if us == [] || us[|us| - 1] == Vis(NEWLINE) then 0
    else LineWidth(font, us[..|us| - 1]) + UnitWidth(font, us[|us| - 1])
  }

  /**
   The line us ends on has one rune that takes columns, it alone is wider than the
   line may be, and nothing but escapes follows it.
   */
  predicate OneWideRune(font: Font, us: seq<Unit>, width: nat) {
    && us != []
    && var last := us[|us| - 1];
      if last.Esc? then OneWideRune(font, us[..|us| - 1], width)
      else last != Vis(NEWLINE) && UnitWidth(font, last) > width && LineWidth(font, us[..|us| - 1]) == 0
  }

  predicate LineOk(font: Font, us: seq<Unit>, width: nat) {
    LineWidth(font, us) <= width || OneWideRune(font, us, width)
  }

  /** Every line of us, at every point of it, is within the width but for a single over-wide rune. */
  ghost predicate LinesOk(font: Font, us: seq<Unit>, width: nat) {
    forall k | 0 <= k <= |us| :: LineOk(font, us[..k], width)
  }

  lemma LineWidthSnoc(font: Font, us: seq<Unit>, u: Unit)
    ensures LineWidth(font, us + [u]) == if u == Vis(NEWLINE) then 0 else LineWidth(font, us) + UnitWidth(font, u)
  {
    assert (us + [u])[..|us|] == us;
  }

  lemma {:induction false} LineWidthWord(font: Font, us: seq<Unit>, rs: seq<Rune>)
    requires IsWord(rs)
    ensures LineWidth(font, us + Visible(rs)) == LineWidth(font, us) + font.Width(rs)
    decreases |rs|
  {
    hide LineWidth;
    if rs == [] {
      assert us + Visible(rs) == us;
    } else {
      assert rs[0] in rs;
      LineWidthSnoc(font, us, Vis(rs[0]));
      LineWidthWord(font, us + [Vis(rs[0])], rs[1..]);
      assert us + Visible(rs) == us + [Vis(rs[0])] + Visible(rs[1..]);
    }
  }

  lemma LinesOkSnoc(font: Font, us: seq<Unit>, u: Unit, width: nat)
    requires LinesOk(font, us, width) && LineOk(font, us + [u], width)
    ensures LinesOk(font, us + [u], width)
  {
    hide LineOk;
    forall k | 0 <= k <= |us + [u]|
      ensures LineOk(font, (us + [u])[..k], width)
    {
      if k <= |us| {
        assert (us + [u])[..k] == us[..k];
      } else {
        assert (us + [u])[..k] == us + [u];
      }
    }
  }

  lemma {:induction false} LinesOkWord(font: Font, us: seq<Unit>, rs: seq<Rune>, width: nat)
    requires LinesOk(font, us, width) && IsWord(rs)
    requires LineWidth(font, us) + font.Width(rs) <= width
    ensures LinesOk(font, us + Visible(rs), width)
    decreases |rs|
  {
    hide LinesOk, OneWideRune, LineWidth;
    if rs == [] {
      assert us + Visible(rs) == us;
    } else {
      assert rs[0] in rs;
      LineWidthSnoc(font, us, Vis(rs[0]));
      LinesOkSnoc(font, us, Vis(rs[0]), width);
      LinesOkWord(font, us + [Vis(rs[0])], rs[1..], width);
      assert us + Visible(rs) == us + [Vis(rs[0])] + Visible(rs[1..]);
    }
  }

  /** At column 0 one over-wide rune makes a permitted line. */
  lemma LinesOkWide(font: Font, us: seq<Unit>, r: Rune, width: nat)
    requires LinesOk(font, us, width) && LineWidth(font, us) == 0 && IsWordRune(r) && font.width(r) > width
    ensures LinesOk(font, us + [Vis(r)], width)
  {
    hide LinesOk;
    assert (us + [Vis(r)])[..|us|] == us;
    LinesOkSnoc(font, us, Vis(r), width);
  }

  lemma LinesOkNewline(font: Font, us: seq<Unit>, width: nat)
    requires LinesOk(font, us, width)
    ensures LinesOk(font, us + [Vis(NEWLINE)], width) && LineWidth(font, us + [Vis(NEWLINE)]) == 0
  {
    hide LinesOk;
    LineWidthSnoc(font, us, Vis(NEWLINE));
    LinesOkSnoc(font, us, Vis(NEWLINE), width);
  }

  /** One chunk of a cut word, at column 0. */
  lemma LinesOkChunk(font: Font, us: seq<Unit>, rs: seq<Rune>, width: nat)
    requires LinesOk(font, us, width) && LineWidth(font, us) == 0 && IsWord(rs) && rs != []
    requires |rs| == 1 || font.Width(rs) <= width
    ensures LinesOk(font, us + Visible(rs), width) && LineWidth(font, us + Visible(rs)) == font.Width(rs)
  {
    hide LinesOk;
    LineWidthWord(font, us, rs);
    if font.Width(rs) <= width {
      LinesOkWord(font, us, rs, width);
    } else {
      assert Visible(rs) == [Vis(rs[0])] && rs == [rs[0]];
      WidthOne(font, rs[0]);
      assert rs[0] in rs;
      LinesOkWide(font, us, rs[0], width);
    }
  }

  lemma LinesOkBroken(font: Font, us: seq<Unit>, rs: seq<Rune>, width: nat)
    requires LinesOk(font, us, width) && LineWidth(font, us) == 0 && IsWord(rs) && rs != []
    requires |rs| == 1 || font.Width(rs) <= width
    ensures LinesOk(font, us + Visible(rs) + [Vis(NEWLINE)], width)
    ensures LineWidth(font, us + Visible(rs) + [Vis(NEWLINE)]) == 0
  {
    hide LinesOk, LineWidth;
    LinesOkChunk(font, us, rs, width);
    LinesOkNewline(font, us + Visible(rs), width);
  }

  lemma {:induction false} LinesOkChunked(font: Font, us: seq<Unit>, rs: seq<Rune>, width: nat)
    requires LinesOk(font, us, width) && LineWidth(font, us) == 0 && IsWord(rs) && rs != []
    ensures LinesOk(font, us + Chunked(font, rs, width), width)
    ensures LineWidth(font, us + Chunked(font, rs, width)) == LastChunkWidth(font, rs, width)
    decreases |rs|
  {
    hide LinesOk, LineWidth, FitLen, CutLen;
    var n := CutLen(font, rs, width);
    if n == |rs| {
      assert rs[..n] == rs;
      LinesOkChunk(font, us, rs, width);
    } else {
      var head := us + Visible(rs[..n]) + [Vis(NEWLINE)];
      LinesOkBroken(font, us, rs[..n], width);
      LinesOkChunked(font, head, rs[n..], width);
      assert us + Chunked(font, rs, width) == head + Chunked(font, rs[n..], width);
    }
  }

  /** The page's column is that of its last line, every line is in order, and a final blank is within the width. */
  ghost predicate PageOk(font: Font, p: Page, width: nat) {
    && LinesOk(font, p.out, width)
    && LineWidth(font, p.out) == p.col
    && (p.out != [] && p.out[|p.out| - 1] == Vis(SPACE) ==> p.col <= width)
  }

  lemma TrimOk(font: Font, us: seq<Unit>, width: nat)
    requires LinesOk(font, us, width)
    ensures LinesOk(font, Trim(us), width)
  {
    hide LineOk;
    var cut := Trim(us);
    forall k | 0 <= k <= |cut|
      ensures LineOk(font, cut[..k], width)
    {
      assert cut[..k] == us[..k];
    }
  }

  lemma NextLineOk(font: Font, p: Page, width: nat)
    requires PageOk(font, p, width)
    ensures PageOk(font, NextLine(p), width)
  {
    hide LinesOk, LineWidth;
    TrimOk(font, p.out, width);
    LinesOkNewline(font, Trim(p.out), width);
  }

  lemma PlaceBlankOk(font: Font, p: Page, width: nat)
    requires PageOk(font, p, width) && width > 0
    ensures PageOk(font, PlaceBlank(p, width), width)
  {
    hide LinesOk, LineWidth;
    LinesOkNewline(font, p.out, width);
    if p.col < width {
      LineWidthSnoc(font, p.out, Vis(SPACE));
      LinesOkSnoc(font, p.out, Vis(SPACE), width);
    }
  }

  lemma PlaceEscapeOk(font: Font, p: Page, body: seq<Rune>, width: nat)
    requires PageOk(font, p, width)
    ensures PageOk(font, Page(p.out + [Esc(body)], p.col), width)
  {
    hide LinesOk;
    LineWidthSnoc(font, p.out, Esc(body));
    assert (p.out + [Esc(body)])[..|p.out|] == p.out;
    assert LineOk(font, p.out, width) by {
      LastLineOk(font, p.out, width);
    }
    LinesOkSnoc(font, p.out, Esc(body), width);
  }

  lemma LastLineOk(font: Font, us: seq<Unit>, width: nat)
    requires LinesOk(font, us, width)
    ensures LineOk(font, us, width)
  {
    hide LineOk;
    assert us[..|us|] == us;
  }

  lemma {:induction false} ChunkedLast(font: Font, rs: seq<Rune>, width: nat)
    requires rs != []
    ensures Chunked(font, rs, width) != []
    ensures Chunked(font, rs, width)[|Chunked(font, rs, width)| - 1] == Vis(rs[|rs| - 1])
    decreases |rs|
  {
    hide FitLen, CutLen;
    var n := CutLen(font, rs, width);
    if n < |rs| {
      ChunkedLast(font, rs[n..], width);
    }
  }

  lemma PlaceWordOk(font: Font, p: Page, rs: seq<Rune>, width: nat)
    requires PageOk(font, p, width) && width > 0 && IsWord(rs) && rs != []
    ensures PageOk(font, PlaceWord(font, p, rs, width), width)
  {
    hide LinesOk, LineWidth, Chunked, LastChunkWidth;
    var needed := font.Width(rs);
    NextLineOk(font, p, width);
    var q := if p.col > 0 && p.col + needed > width then NextLine(p) else p;
    assert rs[|rs| - 1] in rs;
    if needed <= width {
      LineWidthWord(font, q.out, rs);
      LinesOkWord(font, q.out, rs, width);
    } else {
      LinesOkChunked(font, q.out, rs, width);
      ChunkedLast(font, rs, width);
    }
  }

  lemma {:induction false} ReflowOk(font: Font, text: seq<Rune>, p: Page, width: nat)
    requires PageOk(font, p, width) && width > 0
    ensures PageOk(font, Reflow(font, text, p, width), width)
    decreases |text|
  {
    hide PageOk, PlaceBlank, PlaceWord, EscapeLen;
    if text == [] {
    } else if text[0] == ESCAPE {
      var n := EscapeLen(text);
      PlaceEscapeOk(font, p, text[..n], width);
      ReflowOk(font, text[n..], Page(p.out + [Esc(text[..n])], p.col), width);
    } else if text[0] == NEWLINE {
      HardNewlineOk(font, p, width);
      ReflowOk(font, text[1..], Page(p.out + [Vis(NEWLINE)], 0), width);
    } else if text[0] == RETURN {
      ReflowOk(font, text[1..], p, width);
    } else if text[0] == SPACE || text[0] == TAB {
      PlaceBlankOk(font, p, width);
      ReflowOk(font, text[1..], PlaceBlank(p, width), width);
    } else {
      var n := WordLen(text);
      PlaceWordOk(font, p, text[..n], width);
      ReflowOk(font, text[n..], PlaceWord(font, p, text[..n], width), width);
    }
  }

  lemma HardNewlineOk(font: Font, p: Page, width: nat)
    requires PageOk(font, p, width)
    ensures PageOk(font, Page(p.out + [Vis(NEWLINE)], 0), width)
  {
    hide LinesOk, LineWidth;
    LinesOkNewline(font, p.out, width);
  }

  /** No line of the result is wider than the width, but for one over-wide rune alone. */
  lemma WrappedLinesFit(font: Font, text: seq<Rune>, width: nat)
    requires width > 0
    ensures LinesOk(font, Wrapped(font, text, width), width)
  {
    ReflowOk(font, text, EMPTY_PAGE, width);
  }

  // ---- content ----

  predicate IsBlank(u: Unit) {
    u.Vis? && (u.r == SPACE || u.r == TAB || u.r == NEWLINE || u.r == RETURN)
  }

  /** What is left without the white space: the other runes and the escapes, in order. */
  function Essence(us: seq<Unit>): seq<Unit> {
    if us == [] then [] else (if IsBlank(us[0]) then [] else [us[0]]) + Essence(us[1..])
  }

  lemma {:induction false} EssenceAppend(a: seq<Unit>, b: seq<Unit>)
    ensures Essence(a + b) == Essence(a) + Essence(b)
  {
    if a == [] {
      assert a + b == b;
    } else {
      assert (a + b)[1..] == a[1..] + b;
      EssenceAppend(a[1..], b);
    }
  }

  lemma EssenceSnoc(us: seq<Unit>, u: Unit)
    ensures Essence(us + [u]) == if IsBlank(u) then Essence(us) else Essence(us) + [u]
  {
    EssenceAppend(us, [u]);
    assert [u][1..] == [];
  }

  lemma {:induction false} EssenceWord(rs: seq<Rune>)
    requires IsWord(rs)
    ensures Essence(Visible(rs)) == Visible(rs)
  {
    if rs != [] {
      assert rs[0] in rs && Visible(rs)[1..] == Visible(rs[1..]);
      EssenceWord(rs[1..]);
    }
  }

  lemma EssenceTrim(us: seq<Unit>)
    ensures Essence(Trim(us)) == Essence(us)
  {
    if us != [] && us[|us| - 1] == Vis(SPACE) {
      EssenceSnoc(us[..|us| - 1], Vis(SPACE));
      assert us == us[..|us| - 1] + [Vis(SPACE)];
    }
  }

  lemma {:induction false} EssenceChunked(font: Font, rs: seq<Rune>, width: nat)
    requires IsWord(rs) && rs != []
    ensures Essence(Chunked(font, rs, width)) == Visible(rs)
    decreases |rs|
  {
    hide FitLen, CutLen, Essence;
    var n := CutLen(font, rs, width);
    if n == |rs| {
      EssenceWord(rs);
    } else {
      var head, rest := Visible(rs[..n]), Chunked(font, rs[n..], width);
      EssenceWord(rs[..n]);
      EssenceSnoc(head, Vis(NEWLINE));
      EssenceAppend(head + [Vis(NEWLINE)], rest);
      EssenceChunked(font, rs[n..], width);
      assert rs == rs[..n] + rs[n..];
    }
  }

  lemma PlaceWordEssence(font: Font, p: Page, rs: seq<Rune>, width: nat)
    requires IsWord(rs) && rs != []
    ensures Essence(PlaceWord(font, p, rs, width).out) == Essence(p.out) + Visible(rs)
  {
    hide Essence, Chunked, LastChunkWidth, Trim;
    var needed := font.Width(rs);
    EssenceTrim(p.out);
    EssenceSnoc(Trim(p.out), Vis(NEWLINE));
    var q := if p.col > 0 && p.col + needed > width then NextLine(p) else p;
    EssenceWord(rs);
    EssenceChunked(font, rs, width);
    EssenceAppend(q.out, Visible(rs));
    EssenceAppend(q.out, Chunked(font, rs, width));
  }

  lemma PlaceBlankEssence(p: Page, width: nat)
    ensures Essence(PlaceBlank(p, width).out) == Essence(p.out)
  {
    hide Essence;
    EssenceSnoc(p.out, Vis(NEWLINE));
    EssenceSnoc(p.out, Vis(SPACE));
  }

  lemma UnitsAtWord(text: seq<Rune>, n: nat)
    requires n == WordLen(text)
    ensures Units(text) == Visible(text[..n]) + Units(text[n..])
    ensures IsWord(text[..n])
  {
    UnitsWord(text[..n], text[n..]);
    assert text == text[..n] + text[n..];
  }

  lemma {:induction false} ReflowEssence(font: Font, text: seq<Rune>, p: Page, width: nat)
    ensures Essence(Reflow(font, text, p, width).out) == Essence(p.out) + Essence(Units(text))
    decreases |text|
  {
    hide Essence, PlaceBlank, PlaceWord, EscapeLen, Visible, WordLen;
    if text == [] {
      EssenceAppend(p.out, []);
      assert p.out + [] == p.out;
    } else if text[0] == ESCAPE {
      var n := EscapeLen(text);
      var u := Esc(text[..n]);
      ReflowEssence(font, text[n..], Page(p.out + [u], p.col), width);
      EssenceHead(p.out, u, Units(text[n..]));
    } else if text[0] == NEWLINE {
      ReflowEssence(font, text[1..], Page(p.out + [Vis(NEWLINE)], 0), width);
      EssenceHead(p.out, Vis(NEWLINE), Units(text[1..]));
    } else if text[0] == RETURN {
      ReflowEssence(font, text[1..], p, width);
      EssenceBlankHead(text[0], Units(text[1..]));
    } else if text[0] == SPACE || text[0] == TAB {
      PlaceBlankEssence(p, width);
      ReflowEssence(font, text[1..], PlaceBlank(p, width), width);
      EssenceBlankHead(text[0], Units(text[1..]));
    } else {
      var n := WordLen(text);
      UnitsAtWord(text, n);
      PlaceWordEssence(font, p, text[..n], width);
      ReflowEssence(font, text[n..], PlaceWord(font, p, text[..n], width), width);
      EssenceWord(text[..n]);
      EssenceAppend(Visible(text[..n]), Units(text[n..]));
      Assoc(Essence(p.out), Visible(text[..n]), Essence(Units(text[n..])));
    }
  }

  lemma EssenceHead(before: seq<Unit>, u: Unit, after: seq<Unit>)
    ensures Essence(before + [u]) + Essence(after) == Essence(before) + Essence([u] + after)
  {
    hide Essence;
    EssenceAppend(before, [u]);
    EssenceAppend([u], after);
    Assoc(Essence(before), Essence([u]), Essence(after));
  }

  lemma EssenceBlankHead(r: Rune, after: seq<Unit>)
    requires IsBlank(Vis(r))
    ensures Essence([Vis(r)] + after) == Essence(after)
  {
  }

  /** The reflow neither loses, adds nor reorders anything but white space. */
  lemma WrappedKeepsEssence(font: Font, text: seq<Rune>, width: nat)
    ensures Essence(Wrapped(font, text, width)) == Essence(Units(text))
  {
    ReflowEssence(font, text, EMPTY_PAGE, width);
  }

  // ---- what the output is made of ----

  predicate Break(u: Unit) {
    u == Vis(NEWLINE) || u == Vis(SPACE)
  }

  ghost predicate MadeOf(out: seq<Unit>, source: seq<Unit>) {
    forall u | u in out :: Break(u) || (u in source && u != Vis(TAB) && u != Vis(RETURN))
  }

  lemma {:induction false} ChunkedMadeOf(font: Font, rs: seq<Rune>, width: nat)
    requires rs != []
    ensures forall u | u in Chunked(font, rs, width) :: u == Vis(NEWLINE) || u in Visible(rs)
    decreases |rs|
  {
    hide FitLen, CutLen;
    var n := CutLen(font, rs, width);
    if n < |rs| {
      ChunkedMadeOf(font, rs[n..], width);
      assert rs == rs[..n] + rs[n..];
    }
  }

  lemma PlaceWordMadeOf(font: Font, p: Page, rs: seq<Rune>, width: nat, source: seq<Unit>)
    requires MadeOf(p.out, source) && IsWord(rs) && rs != [] && forall u | u in Visible(rs) :: u in source
    ensures MadeOf(PlaceWord(font, p, rs, width).out, source)
  {
    hide Chunked, LastChunkWidth;
    ChunkedMadeOf(font, rs, width);
    forall u | u in Visible(rs)
      ensures u != Vis(TAB) && u != Vis(RETURN)
    {
      var k :| 0 <= k < |rs| && Visible(rs)[k] == u;
      assert rs[k] in rs;
    }
  }

  lemma {:induction false} ReflowMadeOf(font: Font, text: seq<Rune>, p: Page, width: nat, source: seq<Unit>)
    requires MadeOf(p.out, source) && forall u | u in Units(text) :: u in source
    ensures MadeOf(Reflow(font, text, p, width).out, source)
    decreases |text|
  {
    hide PlaceWord, EscapeLen, Visible, WordLen;
    if text == [] {
    } else if text[0] == ESCAPE {
      var n := EscapeLen(text);
      ReflowMadeOf(font, text[n..], Page(p.out + [Esc(text[..n])], p.col), width, source);
    } else if text[0] == NEWLINE {
      ReflowMadeOf(font, text[1..], Page(p.out + [Vis(NEWLINE)], 0), width, source);
    } else if text[0] == RETURN {
      ReflowMadeOf(font, text[1..], p, width, source);
    } else if text[0] == SPACE || text[0] == TAB {
      ReflowMadeOf(font, text[1..], PlaceBlank(p, width), width, source);
    } else {
      var n := WordLen(text);
      UnitsAtWord(text, n);
      PlaceWordMadeOf(font, p, text[..n], width, source);
      ReflowMadeOf(font, text[n..], PlaceWord(font, p, text[..n], width), width, source);
    }
  }

  // ---- the fixed point ----

  ghost predicate Settled(us: seq<Unit>) {
    Vis(TAB) !in us && Vis(RETURN) !in us
  }

  /** The rune at k is wider than a line may be and follows a rune of the same word. */
  predicate WideInside(font: Font, us: seq<Unit>, k: int, width: nat) {
    && 0 < k < |us| && us[k - 1].Vis? && us[k].Vis?
    && IsWordRune(us[k - 1].r) && IsWordRune(us[k].r) && font.width(us[k].r) > width
  }

  /** Over-wide runes are words of their own. */
  ghost predicate WideApart(font: Font, us: seq<Unit>, width: nat) {
    forall k :: !WideInside(font, us, k, width)
  }

  lemma OkAt(font: Font, us: seq<Unit>, k: nat, width: nat)
    requires LinesOk(font, us, width) && k <= |us|
    ensures LineOk(font, us[..k], width)
  {
    hide LineOk;
  }

  /** Reflowing what is in order already, from any point of it, changes nothing. */
  lemma {:induction false} ReflowFits(font: Font, text: seq<Rune>, p: Page, width: nat)
    requires LinesOk(font, p.out + Units(text), width) && WideApart(font, p.out + Units(text), width)
    requires Settled(Units(text)) && LineWidth(font, p.out) == p.col && width > 0
    ensures Reflow(font, text, p, width).out == p.out + Units(text)
    decreases |text|
  {
    hide LinesOk, WideApart, LineWidth, EscapeLen, Visible, WordLen, PlaceWord;
    var us := p.out + Units(text);
    if text == [] {
    } else if text[0] == ESCAPE {
      var n := EscapeLen(text);
      var u := Esc(text[..n]);
      LineWidthSnoc(font, p.out, u);
      Assoc(p.out, [u], Units(text[n..]));
      ReflowFits(font, text[n..], Page(p.out + [u], p.col), width);
    } else {
      var u, rest := Vis(text[0]), Units(text[1..]);
      assert Units(text) == [u] + rest && u in Units(text);
      if text[0] == NEWLINE {
        LineWidthSnoc(font, p.out, u);
        Assoc(p.out, [u], rest);
        ReflowFits(font, text[1..], Page(p.out + [u], 0), width);
      } else if text[0] == SPACE {
        Assoc(p.out, [u], rest);
        BlankFits(font, p, rest, width);
        ReflowFits(font, text[1..], Page(p.out + [u], p.col + 1), width);
      } else {
        var n := WordLen(text);
        UnitsAtWord(text, n);
        var word := Visible(text[..n]);
        WordFits(font, p, text[..n], Units(text[n..]), width);
        Assoc(p.out, word, Units(text[n..]));
        ReflowFits(font, text[n..], Page(p.out + word, p.col + font.Width(text[..n])), width);
      }
    }
  }

  lemma BlankFits(font: Font, p: Page, rest: seq<Unit>, width: nat)
    requires LinesOk(font, p.out + [Vis(SPACE)] + rest, width) && LineWidth(font, p.out) == p.col && width > 0
    ensures p.col < width && LineWidth(font, p.out + [Vis(SPACE)]) == p.col + 1
  {
    hide LinesOk, LineWidth;
    var us := p.out + [Vis(SPACE)] + rest;
    LineWidthSnoc(font, p.out, Vis(SPACE));
    OkAt(font, us, |p.out| + 1, width);
    assert us[..|p.out| + 1] == p.out + [Vis(SPACE)];
  }

  lemma WordFits(font: Font, p: Page, rs: seq<Rune>, rest: seq<Unit>, width: nat)
    requires LinesOk(font, p.out + (Visible(rs) + rest), width) && IsWord(rs) && rs != []
    requires WideApart(font, p.out + (Visible(rs) + rest), width)
    requires LineWidth(font, p.out) == p.col
    ensures PlaceWord(font, p, rs, width) == Page(p.out + Visible(rs), p.col + font.Width(rs))
    ensures LineWidth(font, p.out + Visible(rs)) == p.col + font.Width(rs)
  {
    hide LinesOk, LineWidth, WideApart, WideInside, Chunked, LastChunkWidth;
    LineWidthWord(font, p.out, rs);
    var us := p.out + (Visible(rs) + rest);
    OkAt(font, us, |p.out| + |rs|, width);
    assert us[..|p.out| + |rs|] == p.out + Visible(rs);
    if p.col + font.Width(rs) > width {
      WideStandsAlone(font, p.out, rs, rest, width);
      OneChunk(font, rs, width);
    }
  }

  /** Where a line is over the width at the end of a word, the word is the one over-wide rune, at column 0. */
  lemma WideStandsAlone(font: Font, before: seq<Unit>, rs: seq<Rune>, rest: seq<Unit>, width: nat)
    requires IsWord(rs) && rs != [] && OneWideRune(font, before + Visible(rs), width)
    requires WideApart(font, before + (Visible(rs) + rest), width)
    ensures |rs| == 1 && LineWidth(font, before) == 0 && font.width(rs[0]) > width
  {
    hide LineWidth;
    var us, all, n := before + Visible(rs), before + (Visible(rs) + rest), |rs|;
    assert us[|us| - 1] == Vis(rs[n - 1]) && rs[n - 1] in rs;
    assert us[..|us| - 1] == before + Visible(rs)[..n - 1];
    assert forall k | 0 <= k < n :: all[|before| + k] == Vis(rs[k]) && rs[k] in rs;
    assert !WideInside(font, all, |before| + n - 1, width);
    assert n == 1 ==> before + Visible(rs)[..0] == before;
  }

  lemma OneChunk(font: Font, rs: seq<Rune>, width: nat)
    requires |rs| == 1 && font.width(rs[0]) > width
    ensures font.Width(rs) == font.width(rs[0])
    ensures Chunked(font, rs, width) == Visible(rs) && LastChunkWidth(font, rs, width) == font.Width(rs)
  {
    assert rs[1..] == [];
  }

  // ---- where over-wide runes end up ----

  predicate EndsInWord(us: seq<Unit>) {
    us != [] && us[|us| - 1].Vis? && IsWordRune(us[|us| - 1].r)
  }

  /** Nothing joins at a seam where one side does not continue the other's word. */
  lemma WideApartAppend(font: Font, a: seq<Unit>, b: seq<Unit>, width: nat)
    requires WideApart(font, a, width) && WideApart(font, b, width)
    requires EndsInWord(a) && b != [] ==> b[0].Esc? || !IsWordRune(b[0].r)
    ensures WideApart(font, a + b, width)
  {
    var us := a + b;
    forall k
      ensures !WideInside(font, us, k, width)
    {
      assert !WideInside(font, a, k, width) && !WideInside(font, b, k - |a|, width);
    }
  }

  lemma WideApartOne(font: Font, u: Unit, width: nat)
    ensures WideApart(font, [u], width)
  {
  }

  lemma {:induction false} PartWidth(font: Font, rs: seq<Rune>, k: nat)
    requires k < |rs|
    ensures font.width(rs[k]) <= font.Width(rs)
  {
    if k > 0 {
      PartWidth(font, rs[1..], k - 1);
    }
  }

  /** One chunk: a single rune, or runes that all fit. */
  lemma WideApartChunk(font: Font, rs: seq<Rune>, width: nat)
    requires |rs| == 1 || font.Width(rs) <= width
    ensures WideApart(font, Visible(rs), width)
  {
    forall k
      ensures !WideInside(font, Visible(rs), k, width)
    {
      if 0 < k < |rs| {
        PartWidth(font, rs, k);
      }
    }
  }

  lemma {:induction false} WideApartChunked(font: Font, rs: seq<Rune>, width: nat)
    requires rs != []
    ensures WideApart(font, Chunked(font, rs, width), width)
    decreases |rs|
  {
    hide FitLen, CutLen, WideApart;
    var n := CutLen(font, rs, width);
    WideApartChunk(font, rs[..n], width);
    if n == |rs| {
      assert rs[..n] == rs;
    } else {
      var rest := Chunked(font, rs[n..], width);
      WideApartChunked(font, rs[n..], width);
      WideApartOne(font, Vis(NEWLINE), width);
      WideApartAppend(font, Visible(rs[..n]), [Vis(NEWLINE)], width);
      WideApartAppend(font, Visible(rs[..n]) + [Vis(NEWLINE)], rest, width);
    }
  }

  lemma WideApartTrim(font: Font, us: seq<Unit>, width: nat)
    requires WideApart(font, us, width)
    ensures WideApart(font, Trim(us), width)
  {
    forall k
      ensures !WideInside(font, Trim(us), k, width)
    {
      assert !WideInside(font, us, k, width);
    }
  }

  /** A word put where no word ends keeps its over-wide runes apart. */
  lemma PlaceWordApart(font: Font, p: Page, rs: seq<Rune>, width: nat)
    requires WideApart(font, p.out, width) && !EndsInWord(p.out) && rs != []
    ensures WideApart(font, PlaceWord(font, p, rs, width).out, width)
  {
    hide WideApart, Chunked, LastChunkWidth, Trim;
    var needed := font.Width(rs);
    WideApartTrim(font, p.out, width);
    WideApartOne(font, Vis(NEWLINE), width);
    WideApartAppend(font, Trim(p.out), [Vis(NEWLINE)], width);
    var q := if p.col > 0 && p.col + needed > width then NextLine(p) else p;
    if needed <= width {
      WideApartChunk(font, rs, width);
      WideApartAppend(font, q.out, Visible(rs), width);
    } else {
      WideApartChunked(font, rs, width);
      WideApartAppend(font, q.out, Chunked(font, rs, width), width);
    }
  }

  lemma SnocApart(font: Font, us: seq<Unit>, u: Unit, width: nat)
    requires u.Esc? || !IsWordRune(u.r)
    ensures WideApart(font, us + [u], width) <==> WideApart(font, us, width)
    ensures !EndsInWord(us + [u])
  {
    if WideApart(font, us, width) {
      hide WideApart;
      WideApartOne(font, u, width);
      WideApartAppend(font, us, [u], width);
    } else {
      StaysInside(font, us, [u], width);
    }
  }

  lemma StaysInside(font: Font, us: seq<Unit>, more: seq<Unit>, width: nat)
    requires !WideApart(font, us, width)
    ensures !WideApart(font, us + more, width)
  {
    var k :| WideInside(font, us, k, width);
    assert WideInside(font, us + more, k, width);
  }

  /** The word starts with an over-wide rune and is put right behind another, at column 0. */
  predicate JoinsHere(font: Font, p: Page, rs: seq<Rune>, width: nat)
    requires rs != []
  {
    EndsInWord(p.out) && p.col == 0 && font.width(rs[0]) > width
  }

  lemma SeamInside(font: Font, us: seq<Unit>, rs: seq<Rune>, more: seq<Unit>, width: nat)
    requires EndsInWord(us) && rs != [] && IsWord(rs) && font.width(rs[0]) > width
    ensures !WideApart(font, us + (Visible(rs) + more), width)
  {
    assert rs[0] in rs;
    assert WideInside(font, us + (Visible(rs) + more), |us|, width);
  }

  /** Narrow runes may follow on a word. */
  lemma NarrowSeam(font: Font, us: seq<Unit>, rs: seq<Rune>, more: seq<Unit>, width: nat)
    requires rs != [] && font.width(rs[0]) <= width
    requires WideApart(font, us, width) && WideApart(font, Visible(rs) + more, width)
    ensures WideApart(font, us + (Visible(rs) + more), width)
  {
    var b := Visible(rs) + more;
    forall k
      ensures !WideInside(font, us + b, k, width)
    {
      assert !WideInside(font, us, k, width) && !WideInside(font, b, k - |us|, width);
    }
  }

  /** Chunks start with the word's first rune. */
  lemma ChunkedStarts(font: Font, rs: seq<Rune>, width: nat) returns (n: nat, more: seq<Unit>)
    requires rs != []
    ensures 1 <= n <= |rs| && Chunked(font, rs, width) == Visible(rs[..n]) + more
  {
    n := CutLen(font, rs, width);
    more := if n == |rs| then [] else [Vis(NEWLINE)] + Chunked(font, rs[n..], width);
    assert rs[..|rs|] == rs;
  }

  lemma PlaceWordExactly(font: Font, p: Page, rs: seq<Rune>, width: nat)
    requires rs != [] && IsWord(rs)
    ensures WideApart(font, PlaceWord(font, p, rs, width).out, width)
            <==> WideApart(font, p.out, width) && !JoinsHere(font, p, rs, width)
  {
    hide WideApart, Chunked, Trim, LastChunkWidth;
    var needed := font.Width(rs);
    if !WideApart(font, p.out, width) {
      PlaceWordStays(font, p, rs, width);
    } else if !EndsInWord(p.out) {
      PlaceWordApart(font, p, rs, width);
    } else if p.col > 0 && p.col + needed > width {
      var q := NextLine(p);
      WideApartTrim(font, p.out, width);
      SnocApart(font, Trim(p.out), Vis(NEWLINE), width);
      assert PlaceWord(font, p, rs, width) == PlaceWord(font, q, rs, width);
      PlaceWordApart(font, q, rs, width);
    } else {
      PartWidth(font, rs, 0);
      var n, more := ChunkedStarts(font, rs, width);
      if needed <= width {
        WideApartChunk(font, rs, width);
        assert Visible(rs) + [] == Visible(rs);
        NarrowSeam(font, p.out, rs, [], width);
      } else if font.width(rs[0]) > width {
        SeamInside(font, p.out, rs[..n], more, width);
      } else {
        WideApartChunked(font, rs, width);
        NarrowSeam(font, p.out, rs[..n], more, width);
      }
    }
  }

  /** A word put out does not undo what was there. */
  lemma PlaceWordStays(font: Font, p: Page, rs: seq<Rune>, width: nat)
    requires rs != [] && !WideApart(font, p.out, width)
    ensures !WideApart(font, PlaceWord(font, p, rs, width).out, width)
  {
    hide WideApart, Chunked, LastChunkWidth, Visible;
    var q := if p.col > 0 && p.col + font.Width(rs) > width then NextLine(p) else p;
    if q != p {
      TrimStays(font, p.out, width);
      StaysInside(font, Trim(p.out), [Vis(NEWLINE)], width);
    }
    StaysInside(font, q.out, Visible(rs), width);
    StaysInside(font, q.out, Chunked(font, rs, width), width);
  }

  lemma TrimStays(font: Font, us: seq<Unit>, width: nat)
    requires !WideApart(font, us, width)
    ensures !WideApart(font, Trim(us), width)
  {
    var k :| WideInside(font, us, k, width);
    assert WideInside(font, Trim(us), k, width);
  }

  /**
   Somewhere the reflow meets an over-wide rune at column 0 right behind a word: the two
   are joined by a CR that was dropped between them.
   */
  predicate JoinsWide(font: Font, text: seq<Rune>, p: Page, width: nat)
    decreases |text|
  {
    if text == [] then false
    else if text[0] == ESCAPE then
      var n := EscapeLen(text);
      JoinsWide(font, text[n..], Page(p.out + [Esc(text[..n])], p.col), width)
    else if text[0] == NEWLINE then JoinsWide(font, text[1..], Page(p.out + [Vis(NEWLINE)], 0), width)
    else if text[0] == RETURN then JoinsWide(font, text[1..], p, width)
    else if text[0] == SPACE || text[0] == TAB then JoinsWide(font, text[1..], PlaceBlank(p, width), width)
    else
      var n := WordLen(text);
      JoinsHere(font, p, text[..n], width) || JoinsWide(font, text[n..], PlaceWord(font, p, text[..n], width), width)
  }

  lemma {:induction false} ReflowApart(font: Font, text: seq<Rune>, p: Page, width: nat)
    ensures WideApart(font, Reflow(font, text, p, width).out, width)
            <==> WideApart(font, p.out, width) && !JoinsWide(font, text, p, width)
    decreases |text|
  {
    hide WideApart, PlaceWord, EscapeLen, JoinsHere, EndsInWord;
    if text == [] {
    } else if text[0] == ESCAPE {
      var n := EscapeLen(text);
      SnocApart(font, p.out, Esc(text[..n]), width);
      ReflowApart(font, text[n..], Page(p.out + [Esc(text[..n])], p.col), width);
    } else if text[0] == NEWLINE {
      SnocApart(font, p.out, Vis(NEWLINE), width);
      ReflowApart(font, text[1..], Page(p.out + [Vis(NEWLINE)], 0), width);
    } else if text[0] == RETURN {
      ReflowApart(font, text[1..], p, width);
    } else if text[0] == SPACE || text[0] == TAB {
      SnocApart(font, p.out, Vis(NEWLINE), width);
      SnocApart(font, p.out, Vis(SPACE), width);
      ReflowApart(font, text[1..], PlaceBlank(p, width), width);
    } else {
      var n := WordLen(text);
      PlaceWordExactly(font, p, text[..n], width);
      ReflowApart(font, text[n..], PlaceWord(font, p, text[..n], width), width);
    }
  }

  /** Without a CR to drop, words are put out whole or cut, never joined. */
  lemma {:induction false} NoReturnNoJoin(font: Font, text: seq<Rune>, p: Page, width: nat)
    requires Vis(RETURN) !in Units(text)
    requires EndsInWord(p.out) && text != [] ==> !IsWordRune(text[0])
    ensures !JoinsWide(font, text, p, width)
    decreases |text|
  {
    hide PlaceWord, EscapeLen, Visible;
    if text == [] {
    } else if text[0] == ESCAPE {
      var n := EscapeLen(text);
      NoReturnNoJoin(font, text[n..], Page(p.out + [Esc(text[..n])], p.col), width);
    } else if text[0] == NEWLINE {
      NoReturnNoJoin(font, text[1..], Page(p.out + [Vis(NEWLINE)], 0), width);
    } else if text[0] == SPACE || text[0] == TAB {
      NoReturnNoJoin(font, text[1..], PlaceBlank(p, width), width);
    } else {
      var u := Vis(text[0]);
      assert u in Units(text);
      var n := WordLen(text);
      UnitsAtWord(text, n);
      NoReturnNoJoin(font, text[n..], PlaceWord(font, p, text[..n], width), width);
    }
  }

  /** The output is read back as the units that were put out. */
  lemma WrappedReadsBack(font: Font, text: seq<Rune>, width: nat)
    requires WellFormed(Units(text))
    ensures WellFormed(Wrapped(font, text, width))
    ensures Units(Raw(Wrapped(font, text, width))) == Wrapped(font, text, width)
  {
    hide Reflow, Units, Raw, Whole;
    ReflowMadeOf(font, text, EMPTY_PAGE, width, Units(text));
    UnitsRaw(Wrapped(font, text, width));
  }

  /** Every text is put out in lines that are in order, without TAB or CR. */
  lemma WrappedInOrder(font: Font, text: seq<Rune>, width: nat)
    requires width > 0 && WellFormed(Units(text))
    ensures LinesOk(font, Wrapped(font, text, width), width) && Settled(Wrapped(font, text, width))
  {
    hide Reflow, Units, LinesOk;
    ReflowMadeOf(font, text, EMPTY_PAGE, width, Units(text));
    WrappedLinesFit(font, text, width);
  }

  /** Over-wide runes of the result are words of their own exactly when none was joined to a word before it. */
  lemma WrappedApartExactly(font: Font, text: seq<Rune>, width: nat)
    ensures WideApart(font, Wrapped(font, text, width), width) <==> !JoinsWide(font, text, EMPTY_PAGE, width)
  {
    assert WideApart(font, [], width);
    ReflowApart(font, text, EMPTY_PAGE, width);
  }

  /** Without a CR in the text no over-wide rune of the result follows a rune of the same word. */
  lemma WrappedApart(font: Font, text: seq<Rune>, width: nat)
    requires Vis(RETURN) !in Units(text)
    ensures WideApart(font, Wrapped(font, text, width), width)
  {
    NoReturnNoJoin(font, text, EMPTY_PAGE, width);
    WrappedApartExactly(font, text, width);
  }

  /**
   Text is left as it is exactly when its lines are in order, it holds no TAB or CR,
   and its over-wide runes are words of their own.
   */
  lemma UnchangedExactly(font: Font, text: seq<Rune>, width: nat)
    requires width > 0 && WellFormed(Units(text))
    ensures Wrapped(font, text, width) == Units(text)
      <==> LinesOk(font, Units(text), width) && Settled(Units(text)) && WideApart(font, Units(text), width)
  {
    hide Reflow, Units, LinesOk, WideApart, WellFormed;
    WrappedInOrder(font, text, width);
    assert [] + Units(text) == Units(text);
    if Wrapped(font, text, width) == Units(text) {
      WrappedApart(font, text, width);
    }
    if LinesOk(font, Units(text), width) && Settled(Units(text)) && WideApart(font, Units(text), width) {
      LineWidthNothing(font);
      ReflowFits(font, text, EMPTY_PAGE, width);
    }
  }

  lemma LineWidthNothing(font: Font)
    ensures LineWidth(font, []) == 0
  {
  }

  /**
   Wrapping again changes nothing exactly when no CR was dropped at column 0 between a word
   and an over-wide rune, that is when no over-wide rune put out follows a rune of the same word.
   */
  lemma RewrapExactly(font: Font, text: seq<Rune>, width: nat)
    requires width > 0 && WellFormed(Units(text))
    ensures Wrapped(font, Raw(Wrapped(font, text, width)), width) == Wrapped(font, text, width)
      <==> !JoinsWide(font, text, EMPTY_PAGE, width)
    ensures !JoinsWide(font, text, EMPTY_PAGE, width) <==> WideApart(font, Wrapped(font, text, width), width)
  {
    WrappedApartExactly(font, text, width);
    hide Reflow, JoinsWide, Wrapped, Units, Raw, LinesOk, Settled, WideApart, WellFormed;
    WrappedReadsBack(font, text, width);
    WrappedInOrder(font, text, width);
    UnchangedExactly(font, Raw(Wrapped(font, text, width)), width);
  }

  /** So text without CR is settled by one pass, whatever the widths of its runes. */
  lemma WrapIsIdempotent(font: Font, text: seq<Rune>, width: nat)
    requires width > 0 && WellFormed(Units(text))
    requires Vis(RETURN) !in Units(text) || NarrowText(font, text, width)
    ensures Wrapped(font, Raw(Wrapped(font, text, width)), width) == Wrapped(font, text, width)
  {
    hide Reflow, Units, Raw, WideApart, WellFormed;
    RewrapExactly(font, text, width);
    if Vis(RETURN) !in Units(text) {
      WrappedApart(font, text, width);
    } else {
      NarrowApart(font, text, width);
    }
  }

  /** No rune of the text, white space aside, is wider than the width. */
  ghost predicate NarrowText(font: Font, text: seq<Rune>, width: nat) {
    forall r | Vis(r) in Units(text) && IsWordRune(r) :: font.width(r) <= width
  }

  lemma NarrowApart(font: Font, text: seq<Rune>, width: nat)
    requires NarrowText(font, text, width)
    ensures WideApart(font, Wrapped(font, text, width), width)
  {
    hide Reflow, Units;
    var out := Wrapped(font, text, width);
    ReflowMadeOf(font, text, EMPTY_PAGE, width, Units(text));
    forall k
      ensures !WideInside(font, out, k, width)
    {
      if 0 < k < |out| && out[k].Vis? {
        assert out[k] in out && Vis(out[k].r) == out[k];
      }
    }
  }

  /**
   With an over-wide rune it may change: a dropped CR joins a rune of no width and
   an over-wide one into one word, which the second pass cuts.
   */
  lemma WideRuneNotIdempotent(font: Font, z: Rune, w: Rune)
    requires IsWordRune(z) && IsWordRune(w) && font.width(z) == 0 && font.width(w) == 2
    ensures Wrapped(font, [z, RETURN, w], 1) == [Vis(z), Vis(w)]
    ensures Wrapped(font, Raw([Vis(z), Vis(w)]), 1) == [Vis(z), Vis(NEWLINE), Vis(w)]
  {
    hide Reflow, PlaceWord;
    var text, both := [z, RETURN, w], [z, w];
    WidthOne(font, z);
    WidthOne(font, w);
    var p := Page([Vis(z)], 0);
    OneWord(font, [z], [RETURN, w], EMPTY_PAGE, 1);
    PlaceFirst(font, [z], 1);
    assert [z] + [RETURN, w] == text && [RETURN, w][1..] == [w];
    AtReturn(font, [RETURN, w], p, 1);
    assert Visible([z]) == [Vis(z)];
    assert PlaceWord(font, EMPTY_PAGE, [z], 1) == p;
    OneWord(font, [w], [], p, 1);
    PlaceWide(font, p, w, 1);
    assert [w] + [] == [w] && [Vis(z)] + [Vis(w)] == [Vis(z), Vis(w)];
    RawOne(Vis(z));
    RawOne(Vis(w));
    RawAppend([Vis(z)], [Vis(w)]);
    assert Raw([Vis(z), Vis(w)]) == both;
    OneWord(font, both, [], EMPTY_PAGE, 1);
    PlaceBoth(font, z, w);
    assert both + [] == both;
    AtEnd(font, Page([Vis(z), Vis(w)], 2), 1);
    AtEnd(font, Page([Vis(z), Vis(NEWLINE), Vis(w)], 2), 1);
  }

  lemma AtEnd(font: Font, p: Page, width: nat)
    ensures Reflow(font, [], p, width) == p
  {
  }

  lemma AtReturn(font: Font, text: seq<Rune>, p: Page, width: nat)
    requires text != [] && text[0] == RETURN
    ensures Reflow(font, text, p, width) == Reflow(font, text[1..], p, width)
  {
  }

  lemma PlaceFirst(font: Font, rs: seq<Rune>, width: nat)
    requires rs != [] && font.Width(rs) <= width
    ensures PlaceWord(font, EMPTY_PAGE, rs, width) == Page(Visible(rs), font.Width(rs))
  {
    assert [] + Visible(rs) == Visible(rs);
  }

  lemma PlaceWide(font: Font, p: Page, w: Rune, width: nat)
    requires p.col == 0 && font.width(w) > width
    ensures PlaceWord(font, p, [w], width) == Page(p.out + [Vis(w)], font.width(w))
  {
    WidthOne(font, w);
    assert Visible([w]) == [Vis(w)];
  }

  lemma PlaceBoth(font: Font, z: Rune, w: Rune)
    requires font.width(z) == 0 && font.width(w) == 2
    ensures PlaceWord(font, EMPTY_PAGE, [z, w], 1) == Page([Vis(z), Vis(NEWLINE), Vis(w)], 2)
  {
    var both := [z, w];
    WidthOne(font, z);
    WidthOne(font, w);
    assert both[1..] == [w] && both[..1] == [z];
    assert FitLen(font, [w], 1) == 0;
    assert CutLen(font, both, 1) == 1;
    assert Chunked(font, [w], 1) == Visible([w]) == [Vis(w)];
    assert Visible([z]) == [Vis(z)];
    assert both[1..] == [w] && font.Width(both) == 2;
    assert LastChunkWidth(font, [w], 1) == 2 && LastChunkWidth(font, both, 1) == 2;
    assert Chunked(font, both, 1) == [Vis(z), Vis(NEWLINE), Vis(w)];
    assert [] + Chunked(font, both, 1) == Chunked(font, both, 1);
  }

  lemma {:induction false} OneWord(font: Font, word: seq<Rune>, rest: seq<Rune>, p: Page, width: nat)
    requires IsWord(word) && word != [] && (rest != [] ==> !IsWordRune(rest[0]))
    ensures Reflow(font, word + rest, p, width) == Reflow(font, rest, PlaceWord(font, p, word, width), width)
  {
    hide PlaceWord;
    WordLenIs(word, rest);
    var text := word + rest;
    assert word[0] in word;
    assert text[..|word|] == word && text[|word|..] == rest;
  }

  lemma {:induction false} WordLenIs(word: seq<Rune>, rest: seq<Rune>)
    requires IsWord(word) && (rest != [] ==> !IsWordRune(rest[0]))
    ensures WordLen(word + rest) == |word|
  {
    if word == [] {
      assert word + rest == rest;
    } else {
      assert word[0] in word && (word + rest)[1..] == word[1..] + rest;
      WordLenIs(word[1..], rest);
    }
  }

  // ---- hard newlines ----

  lemma {:induction false} WordLenStands(a: seq<Rune>, b: seq<Rune>)
    requires b != [] && !IsWordRune(b[0])
    ensures WordLen(a + b) == WordLen(a)
  {
    if a == [] {
      assert a + b == b;
    } else {
      assert (a + b)[1..] == a[1..] + b;
      WordLenStands(a[1..], b);
    }
  }

  lemma {:induction false} ReflowAppend(font: Font, a: seq<Rune>, b: seq<Rune>, p: Page, width: nat)
    requires WellFormed(Units(a)) && b != [] && b[0] == NEWLINE
    ensures Reflow(font, a + b, p, width) == Reflow(font, b, Reflow(font, a, p, width), width)
    decreases |a|
  {
    hide Whole, PlaceBlank, PlaceWord, EscapeLen, WordLen, Visible;
    if a == [] {
      assert a + b == b;
    } else if a[0] == ESCAPE {
      var n := EscapeLen(a);
      assert WholeUnit(Units(a)[0]);
      WholeStands(a[..n], a[n..] + b);
      assert a + b == a[..n] + (a[n..] + b) && (a + b)[n..] == a[n..] + b && (a + b)[..n] == a[..n];
      ReflowAppend(font, a[n..], b, Page(p.out + [Esc(a[..n])], p.col), width);
    } else {
      assert (a + b)[1..] == a[1..] + b;
      if a[0] == NEWLINE {
        ReflowAppend(font, a[1..], b, Page(p.out + [Vis(NEWLINE)], 0), width);
      } else if a[0] == RETURN {
        ReflowAppend(font, a[1..], b, p, width);
      } else if a[0] == SPACE || a[0] == TAB {
        ReflowAppend(font, a[1..], b, PlaceBlank(p, width), width);
      } else {
        var n := WordLen(a);
        UnitsAtWord(a, n);
        WordLenStands(a, b);
        assert (a + b)[n..] == a[n..] + b && (a + b)[..n] == a[..n];
        ReflowAppend(font, a[n..], b, PlaceWord(font, p, a[..n], width), width);
      }
    }
  }

  function Below(pre: seq<Unit>, p: Page): Page {
    Page(pre + p.out, p.col)
  }

  lemma PlaceWordBelow(font: Font, pre: seq<Unit>, p: Page, rs: seq<Rune>, width: nat)
    requires pre != [] && pre[|pre| - 1] == Vis(NEWLINE) && rs != []
    ensures PlaceWord(font, Below(pre, p), rs, width) == Below(pre, PlaceWord(font, p, rs, width))
  {
    hide Chunked, LastChunkWidth, Visible;
    assert Trim(pre + p.out) == pre + Trim(p.out);
    var needed := font.Width(rs);
    var q := if p.col > 0 && p.col + needed > width then NextLine(p) else p;
    Assoc(pre, Trim(p.out), [Vis(NEWLINE)]);
    Assoc(pre, q.out, Visible(rs));
    Assoc(pre, q.out, Chunked(font, rs, width));
  }

  /** What stands above a newline has no influence on what comes below it. */
  lemma {:induction false} ReflowBelow(font: Font, pre: seq<Unit>, text: seq<Rune>, p: Page, width: nat)
    requires pre != [] && pre[|pre| - 1] == Vis(NEWLINE)
    ensures Reflow(font, text, Below(pre, p), width) == Below(pre, Reflow(font, text, p, width))
    decreases |text|
  {
    hide PlaceWord, EscapeLen, WordLen, Visible;
    if text == [] {
    } else if text[0] == ESCAPE {
      var n := EscapeLen(text);
      Assoc(pre, p.out, [Esc(text[..n])]);
      ReflowBelow(font, pre, text[n..], Page(p.out + [Esc(text[..n])], p.col), width);
    } else if text[0] == NEWLINE {
      Assoc(pre, p.out, [Vis(NEWLINE)]);
      ReflowBelow(font, pre, text[1..], Page(p.out + [Vis(NEWLINE)], 0), width);
    } else if text[0] == RETURN {
      ReflowBelow(font, pre, text[1..], p, width);
    } else if text[0] == SPACE || text[0] == TAB {
      Assoc(pre, p.out, [Vis(NEWLINE)]);
      Assoc(pre, p.out, [Vis(SPACE)]);
      ReflowBelow(font, pre, text[1..], PlaceBlank(p, width), width);
    } else {
      var n := WordLen(text);
      PlaceWordBelow(font, pre, p, text[..n], width);
      ReflowBelow(font, pre, text[n..], PlaceWord(font, p, text[..n], width), width);
    }
  }

  /** A newline of the text stays, and the lines on its two sides are wrapped each by itself. */
  lemma NewlinesStand(font: Font, a: seq<Rune>, b: seq<Rune>, width: nat)
    requires WellFormed(Units(a))
    ensures Wrapped(font, a + [NEWLINE] + b, width)
      == Wrapped(font, a, width) + [Vis(NEWLINE)] + Wrapped(font, b, width)
  {
    var p := Reflow(font, a, EMPTY_PAGE, width);
    var tail := [NEWLINE] + b;
    assert a + [NEWLINE] + b == a + tail && tail[1..] == b;
    ReflowAppend(font, a, tail, EMPTY_PAGE, width);
    var pre := p.out + [Vis(NEWLINE)];
    assert Page(pre, 0) == Below(pre, EMPTY_PAGE);
    ReflowBelow(font, pre, b, EMPTY_PAGE, width);
  }

  // ---- the loops ----

  /** The index just past the escape at i, or i if there is none. */
  method SkipAnsi(s: seq<int>, i: nat) returns (j: nat)
    requires i <= |s|
    ensures i <= j <= |s|
    ensures j == if i == |s| || s[i] != ESCAPE then i else i + EscapeLen(s[i..])
  {
    if i >= |s| || s[i] != ESCAPE {
      return i;
    }
    var end := i + MAX_ESCAPE;
    if end > |s| {
      end := |s|;
    }
    j := i + 1;
    ghost var t := s[i..];
    ghost var limit := end - i;
    if j >= end {
      return;
    }
    if s[j] == 0x5B {
      j := j + 1;
      while j < end
        invariant i + 2 <= j <= end
        invariant CsiEnd(t, j - i, limit) == CsiEnd(t, 2, limit)
      {
        var b := s[j];
        j := j + 1;
        if IsFinal(b) {
          return;
        }
      }
      return;
    }
    if s[j] == 0x5D {
      j := j + 1;
      while j < end
        invariant i + 2 <= j <= end
        invariant OscEnd(t, j - i, limit) == OscEnd(t, 2, limit)
      {
        if s[j] == 7 {
          return j + 1;
        }
        if s[j] == ESCAPE && j + 1 < end && s[j + 1] == 0x5C {
          return j + 2;
        }
        j := j + 1;
      }
      return;
    }
    j := j + 1;
  }

  /** The longest prefix within the width, or one rune when even that is too wide. */
  method SplitAtWidth(font: Font, s: seq<Rune>, width: nat) returns (head: seq<Rune>, tail: seq<Rune>)
    requires s != []
    ensures head == s[..CutLen(font, s, width)] && tail == s[CutLen(font, s, width)..]
  {
    var col, cut := 0, 0;
    while cut < |s|
      invariant cut <= |s| && col <= width
      invariant FitLen(font, s, width) == cut + FitLen(font, s[cut..], width - col)
    {
      var w := font.width(s[cut]);
      if col + w > width {
        if cut == 0 {
          return s[..1], s[1..];
        }
        break;
      }
      assert s[cut..][1..] == s[cut + 1..];
      col, cut := col + w, cut + 1;
    }
    return s[..cut], s[cut..];
  }

  method TrimTrailingSpace(out: seq<Rune>) returns (r: seq<Rune>)
    ensures r == if out != [] && out[|out| - 1] == SPACE then out[..|out| - 1] else out
  {
    if |out| == 0 || out[|out| - 1] != SPACE {
      return out;
    }
    r := out[..|out| - 1];
  }

  /** Put out so far is the page, as far as the escapes put out are whole. */
  ghost predicate Shown(out: seq<Rune>, us: seq<Unit>) {
    WellFormed(us) ==> out == Raw(us)
  }

  lemma ShownSnoc(out: seq<Rune>, us: seq<Unit>, u: Unit)
    requires Shown(out, us)
    ensures Shown(out + RawUnit(u), us + [u])
  {
    hide Whole;
    RawAppend(us, [u]);
    RawOne(u);
    assert forall v | v in us :: v in us + [u];
  }

  lemma ShownAppend(out: seq<Rune>, us: seq<Unit>, more: seq<Unit>)
    requires Shown(out, us)
    ensures Shown(out + Raw(more), us + more)
  {
    hide Whole;
    RawAppend(us, more);
    assert forall v | v in us :: v in us + more;
  }

  lemma ShownTrim(out: seq<Rune>, us: seq<Unit>)
    requires Shown(out, us)
    ensures Shown(if out != [] && out[|out| - 1] == SPACE then out[..|out| - 1] else out, Trim(us))
  {
    hide Raw, Whole;
    if !WellFormed(us) {
      assert WellFormed(Trim(us)) ==> WellFormed(us);
    } else if us != [] {
      var front, last := us[..|us| - 1], us[|us| - 1];
      assert us == front + [last] && last in us;
      RawAppend(front, [last]);
      RawOne(last);
      LastRune(last);
      assert out[|out| - 1] == RawUnit(last)[|RawUnit(last)| - 1];
      if last == Vis(SPACE) {
        assert out[..|out| - 1] == Raw(front);
      }
    } else {
      RawNothing();
    }
  }

  lemma LastRune(u: Unit)
    requires WholeUnit(u)
    ensures RawUnit(u) != []
    ensures RawUnit(u)[|RawUnit(u)| - 1] == SPACE <==> u == Vis(SPACE)
  {
  }

  lemma RawNothing()
    ensures Raw([]) == []
  {
  }

  /** Starts a new line below out. */
  method BreakLine(out: seq<Rune>, ghost p: Page) returns (r: seq<Rune>)
    requires Shown(out, p.out)
    ensures Shown(r, NextLine(p).out)
  {
    hide Shown, Trim;
    r := TrimTrailingSpace(out);
    ShownTrim(out, p.out);
    ShownSnoc(r, Trim(p.out), Vis(NEWLINE));
    r := r + [NEWLINE];
  }

  /** The over-wide word, cut at the column boundary. */
  method WriteChunks(font: Font, word: seq<Rune>, width: nat) returns (chunks: seq<Rune>, col: nat)
    requires word != []
    ensures chunks == Raw(Chunked(font, word, width)) && col == LastChunkWidth(font, word, width)
  {
    hide CutLen;
    chunks, col := [], 0;
    var remaining := word;
    ghost var done: seq<Unit> := [];
    while remaining != []
      invariant remaining != [] ==> chunks == Raw(done)
      invariant remaining != [] ==> Chunked(font, word, width) == done + Chunked(font, remaining, width)
      invariant remaining != [] ==> LastChunkWidth(font, word, width) == LastChunkWidth(font, remaining, width)
      invariant remaining == [] ==>
                  chunks == Raw(Chunked(font, word, width)) && col == LastChunkWidth(font, word, width)
      decreases |remaining|
    {
      var head, tail := SplitAtWidth(font, remaining, width);
      RawVisible(head);
      RawAppend(done, Visible(head));
      chunks := chunks + head;
      if tail == [] {
        assert head == remaining;
        col := font.Width(head);
        return;
      }
      RawAppend(done + Visible(head), [Vis(NEWLINE)]);
      RawOne(Vis(NEWLINE));
      chunks := chunks + [NEWLINE];
      Assoc(done, Visible(head), [Vis(NEWLINE)]);
      Assoc(done, Visible(head) + [Vis(NEWLINE)], Chunked(font, tail, width));
      done := done + Visible(head) + [Vis(NEWLINE)];
      remaining := tail;
    }
  }

  method WriteWord(font: Font, out: seq<Rune>, col: nat, word: seq<Rune>, width: nat, ghost p: Page)
    returns (out': seq<Rune>, col': nat)
    requires Shown(out, p.out) && col == p.col && word != [] && width > 0
    ensures Shown(out', PlaceWord(font, p, word, width).out) && col' == PlaceWord(font, p, word, width).col
  {
    hide Shown, Chunked, LastChunkWidth, NextLine, Visible;
    out', col' := out, col;
    ghost var q := p;
    var wlen := font.Width(word);
    if wlen <= width {
      if col > 0 && col + wlen > width {
        out' := BreakLine(out', p);
        col', q := 0, NextLine(p);
        NextLineColumn(p);
      }
      RawVisible(word);
      ShownAppend(out', q.out, Visible(word));
      out', col' := out' + word, col' + wlen;
      return;
    }
    if col > 0 {
      out' := BreakLine(out', p);
      col', q := 0, NextLine(p);
    }
    var chunks, last := WriteChunks(font, word, width);
    ShownAppend(out', q.out, Chunked(font, word, width));
    out', col' := out' + chunks, last;
  }

  lemma NextLineColumn(p: Page)
    ensures NextLine(p).col == 0
  {
  }

  /** Reflows text to the width; a width of 0 or less turns wrapping off. */
  /** The reflow at the i-th rune, whatever it is. */
  lemma ReflowAt(font: Font, text: seq<Rune>, i: nat, p: Page, width: nat)
    requires i < |text|
    ensures text[i] == ESCAPE ==> var j := i + EscapeLen(text[i..]);
      Reflow(font, text[i..], p, width) == Reflow(font, text[j..], Page(p.out + [Esc(text[i..j])], p.col), width)
    ensures text[i] == NEWLINE ==>
      Reflow(font, text[i..], p, width) == Reflow(font, text[i + 1..], Page(p.out + [Vis(NEWLINE)], 0), width)
    ensures text[i] == RETURN ==> Reflow(font, text[i..], p, width) == Reflow(font, text[i + 1..], p, width)
    ensures text[i] == SPACE || text[i] == TAB ==>
      Reflow(font, text[i..], p, width) == Reflow(font, text[i + 1..], PlaceBlank(p, width), width)
    ensures IsWordRune(text[i]) ==> var j := i + WordLen(text[i..]);
      Reflow(font, text[i..], p, width) == Reflow(font, text[j..], PlaceWord(font, p, text[i..j], width), width)
  {
    hide EscapeLen, WordLen, PlaceWord, PlaceBlank;
    var rest := text[i..];
    assert rest[1..] == text[i + 1..];
    if text[i] == ESCAPE {
      var n := EscapeLen(rest);
      assert rest[..n] == text[i..i + n] && rest[n..] == text[i + n..];
    } else if IsWordRune(text[i]) {
      var n := WordLen(rest);
      assert rest[..n] == text[i..i + n] && rest[n..] == text[i + n..];
    }
  }

  method WrapText(font: Font, text: seq<Rune>, width: int) returns (r: seq<Rune>)
    ensures width <= 0 ==> r == text
    ensures width > 0 && WellFormed(Units(text)) ==>
      && r == Raw(Wrapped(font, text, width))
      && LinesOk(font, Units(r), width)
      && Essence(Units(r)) == Essence(Units(text))
  {
    hide LinesOk, Essence, Shown, PlaceWord, EscapeLen, Units, Raw, WellFormed, Visible, Reflow, WordLen;
    if width <= 0 || text == [] {
      RawNothing();
      if width > 0 {
        ShownNothing();
        AtEnd(font, EMPTY_PAGE, width);
        Finished(font, text, width, [], EMPTY_PAGE);
      }
      return text;
    }
    var out: seq<Rune> := [];
    var col := 0;
    var i := 0;
    ghost var p := EMPTY_PAGE;
    ShownNothing();
    while i < |text|
      invariant i <= |text| && col == p.col && Shown(out, p.out)
      invariant Reflow(font, text[i..], p, width) == Reflow(font, text, EMPTY_PAGE, width)
    {
      var c := text[i];
      ReflowAt(font, text, i, p, width);
      if c == ESCAPE {
        var j := SkipAnsi(text, i);
        ShownSnoc(out, p.out, Esc(text[i..j]));
        out := out + text[i..j];
        p := Page(p.out + [Esc(text[i..j])], p.col);
        i := j;
        continue;
      }
      if c == NEWLINE {
        ShownSnoc(out, p.out, Vis(NEWLINE));
        out, col, i := out + [NEWLINE], 0, i + 1;
        p := Page(p.out + [Vis(NEWLINE)], 0);
        continue;
      }
      if c == RETURN {
        i := i + 1;
        continue;
      }
      if c == SPACE || c == TAB {
        ShownSnoc(out, p.out, Vis(if col >= width then NEWLINE else SPACE));
        if col >= width {
          out, col, i := out + [NEWLINE], 0, i + 1;
        } else {
          out, col, i := out + [SPACE], col + 1, i + 1;
        }
        p := PlaceBlank(p, width);
        continue;
      }
      var j := EndOfWord(text, i);
      out, col := WriteWord(font, out, col, text[i..j], width, p);
      p := PlaceWord(font, p, text[i..j], width);
      i := j;
    }
    r := out;
    AtEnd(font, p, width);
    assert text[i..] == [];
    Finished(font, text, width, out, p);
  }

  lemma ShownNothing()
    ensures Shown([], [])
  {
  }

  lemma Finished(font: Font, text: seq<Rune>, width: nat, out: seq<Rune>, p: Page)
    requires Shown(out, p.out) && p == Reflow(font, text, EMPTY_PAGE, width)
    requires width > 0
    ensures WellFormed(Units(text)) ==>
      && out == Raw(Wrapped(font, text, width))
      && LinesOk(font, Units(out), width)
      && Essence(Units(out)) == Essence(Units(text))
  {
    hide Reflow, Units, Raw, WellFormed, LinesOk, Essence;
    if WellFormed(Units(text)) {
      WrappedLinesFit(font, text, width);
      WrappedKeepsEssence(font, text, width);
      WrappedReadsBack(font, text, width);
    }
  }

  /** Reads a word: a run without blanks, newlines and escapes. */
  method EndOfWord(text: seq<Rune>, i: nat) returns (j: nat)
    requires i <= |text|
    ensures i <= j <= |text| && j == i + WordLen(text[i..])
  {
    j := i;
    while j < |text|
      invariant i <= j <= |text| && WordLen(text[i..]) == j - i + WordLen(text[j..])
    {
      if !IsWordRune(text[j]) {
        break;
      }
      assert text[j..][1..] == text[j + 1..];
      j := j + 1;
    }
  }
}
