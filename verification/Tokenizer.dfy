/**
 Three hand-written scanners over the same quoting rules: the argument tokenizer, the `;`
 splitter and the completion scanner, each a one-pass loop. The theorems say that they agree.
 */
module Tokenizer {
  import opened Basics

  datatype Quote = Bare | Double | Single

  predicate IsBlank(c: char) {
    c == ' ' || c == '\t'
  }

  predicate IsQuote(c: char) {
    c == '"' || c == '\''
  }

  function QuoteOf(c: char): Quote {
    if c == '"' then Double else if c == '\'' then Single else Bare
  }

  // ---- the skeleton: where quotes open and close ----

  /** A backslash takes the next character with it, except inside single quotes. */
  predicate Escapes(s: string, q: Quote)
    requires s != ""
  {
    s[0] == '\\' && q != Single && |s| > 1
  }

  function Advance(s: string, q: Quote): (n: nat)
    requires s != ""
    ensures 1 <= n <= |s|
  {
    if Escapes(s, q) then 2 else 1
  }

  function After(s: string, q: Quote): Quote
    requires s != ""
  {
    if Escapes(s, q) then q
    else if q == Bare then QuoteOf(s[0])
    else if QuoteOf(s[0]) == q then Bare
    else q
  }

  /** The quote open at the end of s. */
  function Scan(s: string, q: Quote): Quote {
    if s == "" then q else Scan(s[Advance(s, q)..], After(s, q))
  }

  /** s does not end in a backslash that still waits for its character. */
  predicate Whole(s: string, q: Quote) {
    s == "" || ((s == "\\" ==> q == Single) && Whole(s[Advance(s, q)..], After(s, q)))
  }

  lemma {:induction false} ScanAppend(a: string, b: string, q: Quote)
    requires Whole(a, q)
    ensures Scan(a + b, q) == Scan(b, Scan(a, q))
    ensures Whole(a + b, q) <==> Whole(b, Scan(a, q))
    decreases |a|
  {
    if a == "" {
      assert a + b == b;
    } else {
      var n := Advance(a, q);
      assert Advance(a + b, q) == n && After(a + b, q) == After(a, q);
      assert (a + b)[n..] == a[n..] + b;
      ScanAppend(a[n..], b, After(a, q));
    }
  }

  // ---- Tokenize ----

  datatype Tok = Tok(quote: Quote, inTok: bool, cur: string, out: seq<string>) {
    function Flush(): Tok {
      if inTok then Tok(quote, false, "", out + [cur]) else this
    }

    function Push(c: char): Tok {
      this.(cur := cur + [c], inTok := true)
    }
  }

  const TOK_START := Tok(Bare, false, "", [])

  function Unescape(c: char): char {
    match c
    case 'n' => '\n'
    case 't' => '\t'
    case 'r' => '\r'
    case _ => c
  }

  function TokOne(s: string, t: Tok): Tok
    requires s != ""
  {
    var c := s[0];
    if t.quote == Bare then
      if IsBlank(c) then t.Flush()
      else if IsQuote(c) then t.(quote := QuoteOf(c), inTok := true)
      else if c == '\\' && |s| > 1 then t.Push(s[1])
      else t.Push(c)
    else if QuoteOf(c) == t.quote then t.(quote := Bare)
    else if t.quote == Double && c == '\\' && |s| > 1 then t.(cur := t.cur + [Unescape(s[1])])
    else t.(cur := t.cur + [c])
  }

  function TokRun(s: string, t: Tok): Tok {
    if s == "" then t else TokRun(s[Advance(s, t.quote)..], TokOne(s, t))
  }

  /** None for an unbalanced quote. */
  function Tokens(s: string): Option<seq<string>> {
    var t := TokRun(s, TOK_START);
    if t.quote != Bare then None else Some(t.Flush().out)
  }

  lemma Unfold(s: string, i: nat, t: Tok)
    requires i <= |s|
    ensures i < |s| ==> TokRun(s[i..], t) == TokRun(s[i + Advance(s[i..], t.quote)..], TokOne(s[i..], t))
    ensures i == |s| ==> TokRun(s[i..], t) == t
  {
    if i < |s| {
      var n := Advance(s[i..], t.quote);
      assert s[i..][n..] == s[i + n..];
    }
  }

  method Tokenize(s: string) returns (r: Option<seq<string>>)
    ensures r == Tokens(s)
  {
    hide TokRun;
    Unfold(s, |s|, TOK_START);
    assert s[|s|..] == "";
    if s == "" {
      return Some([]);
    }
    var out: seq<string> := [];
    var cur := "";
    var inTok := false;
    var quote := Bare;
    var i := 0;
    assert s[0..] == s;
    while i < |s|
      invariant i <= |s|
      invariant TokRun(s, TOK_START) == TokRun(s[i..], Tok(quote, inTok, cur, out))
      decreases |s| - i
    {
      var c := s[i];
      ghost var now := Tok(quote, inTok, cur, out);
      Unfold(s, i, now);
      if quote == Bare {
        if c == ' ' || c == '\t' {
          if inTok {
            out, cur, inTok := out + [cur], "", false;
          }
        } else if c == '"' || c == '\'' {
          quote, inTok := if c == '"' then Double else Single, true;
        } else if c == '\\' && i + 1 < |s| {
          cur, inTok := cur + [s[i + 1]], true;
          i := i + 1;
        } else {
          cur, inTok := cur + [c], true;
        }
      } else if c == (if quote == Double then '"' else '\'') {
        quote := Bare;
      } else if quote == Double && c == '\\' && i + 1 < |s| {
        var next := s[i + 1];
        match next {
          case 'n' => cur := cur + ['\n'];
          case 't' => cur := cur + ['\t'];
          case 'r' => cur := cur + ['\r'];
          case _ => cur := cur + [next];
        }
        i := i + 1;
      } else {
        cur := cur + [c];
      }
      i := i + 1;
    }
    Unfold(s, i, Tok(quote, inTok, cur, out));
    if quote != Bare {
      return None;
    }
    if inTok {
      out := out + [cur];
    }
    r := Some(out);
  }

  lemma {:induction false} TokAppend(a: string, b: string, t: Tok)
    requires Whole(a, t.quote)
    ensures TokRun(a + b, t) == TokRun(b, TokRun(a, t))
    decreases |a|
  {
    if a == "" {
      assert a + b == b;
    } else {
      var n := Advance(a, t.quote);
      assert (a + b)[n..] == a[n..] + b;
      assert TokOne(a + b, t) == TokOne(a, t);
      TokAppend(a[n..], b, TokOne(a, t));
    }
  }

  lemma {:induction false} TokQuote(s: string, t: Tok)
    ensures TokRun(s, t).quote == Scan(s, t.quote)
    decreases |s|
  {
    if s != "" {
      TokQuote(s[Advance(s, t.quote)..], TokOne(s, t));
    }
  }

  /** Tokens already finished are never looked at again. */
  lemma {:induction false} TokShift(s: string, t: Tok, before: seq<string>)
    ensures TokRun(s, t.(out := before + t.out)) == TokRun(s, t).(out := before + TokRun(s, t).out)
    decreases |s|
  {
    if s != "" {
      var t1 := TokOne(s, t);
      assert before + (t.out + [t.cur]) == before + t.out + [t.cur];
      assert TokOne(s, t.(out := before + t.out)) == t1.(out := before + t1.out);
      TokShift(s[Advance(s, t.quote)..], t1, before);
    }
  }

  // ---- SplitOnSemicolon ----

  function TrimLeft(s: string): (r: string)
    ensures |r| <= |s| && r == s[|s| - |r|..]
    ensures r != "" ==> !IsSpace(r[0] as int)
    ensures forall i | 0 <= i < |s| - |r| :: IsSpace(s[i] as int)
  {
    if s != "" && IsSpace(s[0] as int) then
      var r := TrimLeft(s[1..]);
      assert forall i | 1 <= i < |s| - |r| :: s[i] == s[1..][i - 1];
      r
    else s
  }

  function TrimRight(s: string): (r: string)
    ensures |r| <= |s| && r == s[..|r|]
    ensures r != "" ==> !IsSpace(r[|r| - 1] as int)
    ensures forall i | |r| <= i < |s| :: IsSpace(s[i] as int)
  {
    if s != "" && IsSpace(s[|s| - 1] as int) then TrimRight(s[..|s| - 1]) else s
  }

  function Trim(s: string): string {
    TrimRight(TrimLeft(s))
  }

  datatype Spl = Spl(quote: Quote, cur: string, out: seq<string>) {
    function Flush(): Spl {
      Spl(quote, "", if Trim(cur) != "" then out + [Trim(cur)] else out)
    }
  }

  const SPL_START := Spl(Bare, "", [])

  function SplOne(s: string, t: Spl): Spl
    requires s != ""
  {
    if t.quote == Bare && s[0] == ';' then t.Flush()
    else Spl(After(s, t.quote), t.cur + s[..Advance(s, t.quote)], t.out)
  }

  function SplRun(s: string, t: Spl): Spl {
    if s == "" then t else SplRun(s[Advance(s, t.quote)..], SplOne(s, t))
  }

  function Segments(s: string): Option<seq<string>> {
    var t := SplRun(s, SPL_START);
    if t.quote != Bare then None else Some(t.Flush().out)
  }

  lemma UnfoldSplit(s: string, i: nat, t: Spl)
    requires i <= |s|
    ensures i < |s| ==> SplRun(s[i..], t) == SplRun(s[i + Advance(s[i..], t.quote)..], SplOne(s[i..], t))
    ensures i < |s| ==> s[i..][..Advance(s[i..], t.quote)] == s[i..i + Advance(s[i..], t.quote)]
    ensures i == |s| ==> SplRun(s[i..], t) == t
  {
    if i < |s| {
      var n := Advance(s[i..], t.quote);
      assert s[i..][n..] == s[i + n..];
    }
  }

  method SplitOnSemicolon(s: string) returns (r: Option<seq<string>>)
    ensures r == Segments(s)
  {
    hide SplRun, TrimLeft, TrimRight;
    if s == "" {
      UnfoldSplit(s, 0, SPL_START);
      assert s[0..] == s;
      return Some([]);
    }
    var out: seq<string> := [];
    var cur := "";
    var quote := Bare;
    var i := 0;
    assert s[0..] == s;
    while i < |s|
      invariant i <= |s|
      invariant SplRun(s, SPL_START) == SplRun(s[i..], Spl(quote, cur, out))
      decreases |s| - i
    {
      var c := s[i];
      ghost var n := Advance(s[i..], quote);
      UnfoldSplit(s, i, Spl(quote, cur, out));
      assert s[i..i + n] == if n == 2 then [c] + [s[i + 1]] else [c];
      assert n == 2 ==> cur + [c] + [s[i + 1]] == cur + ([c] + [s[i + 1]]);
      if quote == Bare {
        if c == ';' {
          var seg := Trim(cur);
          if seg != "" {
            out := out + [seg];
          }
          cur := "";
        } else if c == '"' || c == '\'' {
          quote := if c == '"' then Double else Single;
          cur := cur + [c];
        } else if c == '\\' && i + 1 < |s| {
          cur := cur + [c] + [s[i + 1]];
          i := i + 1;
        } else {
          cur := cur + [c];
        }
      } else {
        cur := cur + [c];
        if c == (if quote == Double then '"' else '\'') {
          quote := Bare;
        } else if quote == Double && c == '\\' && i + 1 < |s| {
          cur := cur + [s[i + 1]];
          i := i + 1;
        }
      }
      i := i + 1;
    }
    UnfoldSplit(s, i, Spl(quote, cur, out));
    if quote != Bare {
      return None;
    }
    var last := Trim(cur);
    if last != "" {
      out := out + [last];
    }
    r := Some(out);
  }

  lemma {:induction false} SplQuote(s: string, t: Spl)
    ensures SplRun(s, t).quote == Scan(s, t.quote)
    decreases |s|
  {
    if s != "" {
      SplQuote(s[Advance(s, t.quote)..], SplOne(s, t));
    }
  }

  /** No `;` stands outside quotes and escapes. */
  predicate NoSemi(s: string, q: Quote) {
    s == "" || (!(q == Bare && s[0] == ';') && NoSemi(s[Advance(s, q)..], After(s, q)))
  }

  lemma {:induction false} NoSemiAppend(a: string, b: string, q: Quote)
    requires Whole(a, q)
    ensures NoSemi(a + b, q) <==> NoSemi(a, q) && NoSemi(b, Scan(a, q))
    decreases |a|
  {
    if a == "" {
      assert a + b == b;
    } else {
      var n := Advance(a, q);
      assert Advance(a + b, q) == n && After(a + b, q) == After(a, q);
      assert (a + b)[n..] == a[n..] + b;
      NoSemiAppend(a[n..], b, After(a, q));
    }
  }

  /** A stretch without a top-level `;` only accumulates. */
  lemma {:induction false} NoSemiCollects(s: string, t: Spl)
    requires NoSemi(s, t.quote)
    ensures SplRun(s, t) == Spl(Scan(s, t.quote), t.cur + s, t.out)
    decreases |s|
  {
    if s == "" {
      assert t.cur + s == t.cur;
    } else {
      var n := Advance(s, t.quote);
      NoSemiCollects(s[n..], SplOne(s, t));
      assert t.cur + s[..n] + s[n..] == t.cur + s;
    }
  }

  lemma {:induction false} SplAppend(a: string, b: string, t: Spl)
    requires Whole(a, t.quote)
    ensures SplRun(a + b, t) == SplRun(b, SplRun(a, t))
    decreases |a|
  {
    if a == "" {
      assert a + b == b;
    } else {
      var n := Advance(a, t.quote);
      assert (a + b)[n..] == a[n..] + b && (a + b)[..n] == a[..n];
      assert SplOne(a + b, t) == SplOne(a, t);
      SplAppend(a[n..], b, SplOne(a, t));
    }
  }

  /** A piece of a line between separators: quotes balanced, no separator of its own. */
  predicate IsPiece(s: string) {
    NoSemi(s, Bare) && Scan(s, Bare) == Bare
  }

  /** A piece as it is handed on: not empty and without surrounding space. */
  predicate IsSegment(s: string) {
    IsPiece(s) && s != "" && Trim(s) == s
  }

  lemma {:induction false} DropSpaces(s: string, k: nat)
    requires k <= |s| && forall i | 0 <= i < k :: IsSpace(s[i] as int)
    ensures NoSemi(s, Bare) <==> NoSemi(s[k..], Bare)
    ensures Scan(s, Bare) == Scan(s[k..], Bare)
    decreases k
  {
    if k > 0 {
      assert s[1..][k - 1..] == s[k..];
      assert forall i | 0 <= i < k - 1 :: s[1..][i] == s[i + 1];
      DropSpaces(s[1..], k - 1);
    }
  }

  /** Cutting spaces off the end changes no quote, even when it cuts an escaped one. */
  lemma {:induction false} CutSpaces(s: string, ws: string, q: Quote)
    requires forall c | c in ws :: IsSpace(c as int)
    ensures Scan(s + ws, q) == Scan(s, q)
    ensures NoSemi(s + ws, q) ==> NoSemi(s, q)
    decreases |s|
  {
    if s == "" {
      assert s + ws == ws;
      OnlySpaces(ws, q);
    } else if s == "\\" {
      CutEscapedSpace(s, ws, q);
    } else {
      hide IsSpace;
      var n := Advance(s, q);
      assert Advance(s + ws, q) == n && After(s + ws, q) == After(s, q);
      assert (s + ws)[n..] == s[n..] + ws;
      CutSpaces(s[n..], ws, After(s, q));
    }
  }

  lemma BackslashKeeps(s: string, q: Quote)
    requires s != "" && s[0] == '\\'
    ensures Scan(s, q) == Scan(s[Advance(s, q)..], q)
  {
  }

  lemma CutEscapedSpace(s: string, ws: string, q: Quote)
    requires |s| == 1 && s[0] == '\\' && forall c | c in ws :: IsSpace(c as int)
    ensures Scan(s + ws, q) == Scan(s, q)
    ensures NoSemi(s, q)
  {
    hide IsSpace, Scan;
    BackslashKeeps(s, q);
    BackslashKeeps(s + ws, q);
    var n := Advance(s + ws, q);
    assert s[1..] == "" && (s + ws)[n..] == ws[n - 1..];
    var tail := ws[n - 1..];
    assert forall c | c in tail :: c in ws;
    OnlySpaces(tail, q);
    OnlySpaces("", q);
  }

  lemma {:induction false} OnlySpaces(ws: string, q: Quote)
    requires forall c | c in ws :: IsSpace(c as int)
    ensures Scan(ws, q) == q
    decreases |ws|
  {
    if ws != "" {
      assert ws[0] in ws;
      assert forall c | c in ws[1..] :: c in ws;
      OnlySpaces(ws[1..], q);
    }
  }

  lemma TrimPiece(s: string)
    requires IsPiece(s)
    ensures IsPiece(Trim(s)) && Trim(Trim(s)) == Trim(s)
  {
    hide IsSpace, NoSemi, Scan, TrimLeft, TrimRight;
    var left := TrimLeft(s);
    var r := TrimRight(left);
    DropSpaces(s, |s| - |left|);
    assert left == r + left[|r|..];
    CutSpaces(r, left[|r|..], Bare);
  }

  /** What has been collected since the last separator is a piece in the making. */
  lemma {:induction false} SplPieces(s: string, t: Spl)
    requires Whole(t.cur, Bare) && Scan(t.cur, Bare) == t.quote && NoSemi(t.cur, Bare)
    requires forall seg | seg in t.out :: IsSegment(seg)
    ensures var t' := SplRun(s, t);
      && (forall seg | seg in t'.out :: IsSegment(seg))
      && Scan(t'.cur, Bare) == t'.quote && NoSemi(t'.cur, Bare)
    decreases |s|
  {
    if s != "" {
      var t1 := SplOne(s, t);
      var n := Advance(s, t.quote);
      if t.quote == Bare && s[0] == ';' {
        TrimPiece(t.cur);
        SplPieces(s[n..], t1);
      } else {
        var c := s[..n];
        assert c[Advance(c, t.quote)..] == "";
        assert Scan(c, t.quote) == After(s, t.quote);
        ScanAppend(t.cur, c, Bare);
        NoSemiAppend(t.cur, c, Bare);
        if Whole(c, t.quote) {
          SplPieces(s[n..], t1);
        } else {
          assert s == "\\";
          assert s[n..] == "";
        }
      }
    }
  }

  lemma Starting()
    ensures Whole("", Bare) && Scan("", Bare) == Bare && NoSemi("", Bare) && TrimLeft("") == ""
  {
  }

  lemma SegmentsArePieces(s: string)
    requires Segments(s).Some?
    ensures forall seg | seg in Segments(s).value :: IsSegment(seg)
  {
    hide SplRun, Scan, NoSemi, Whole, TrimLeft, TrimRight;
    Starting();
    SplPieces(s, SPL_START);
    TrimPiece(SplRun(s, SPL_START).cur);
  }

  lemma SegmentTokenizes(seg: string)
    requires Scan(seg, Bare) == Bare
    ensures Tokens(seg).Some?
  {
    hide TokRun, Scan;
    TokQuote(seg, TOK_START);
  }

  lemma SegmentSplitsAlone(seg: string)
    requires IsSegment(seg)
    ensures Segments(seg) == Some([seg])
  {
    hide SplRun, Scan, NoSemi, Trim;
    NoSemiCollects(seg, SPL_START);
    assert SPL_START.cur + seg == seg;
    assert SPL_START.out + [seg] == [seg];
  }

  /** Every segment is not empty, tokenizes without an error, and splits into itself alone. */
  lemma SegmentsStandAlone(s: string)
    requires Segments(s).Some?
    ensures forall seg | seg in Segments(s).value ::
              seg != "" && Tokens(seg).Some? && Segments(seg) == Some([seg])
  {
    hide Segments, Tokens, Scan, NoSemi, Trim;
    SegmentsArePieces(s);
    forall seg | seg in Segments(s).value
      ensures seg != "" && Tokens(seg).Some? && Segments(seg) == Some([seg])
    {
      SegmentTokenizes(seg);
      SegmentSplitsAlone(seg);
    }
  }

  function JoinSegments(segs: seq<string>): string {
    if segs == [] then "" else if |segs| == 1 then segs[0] else segs[0] + ";" + JoinSegments(segs[1..])
  }

  lemma {:induction false} SegmentsRun(segs: seq<string>, out: seq<string>)
    requires forall seg | seg in segs :: IsSegment(seg) && Whole(seg, Bare)
    ensures SplRun(JoinSegments(segs), Spl(Bare, "", out)).Flush() == Spl(Bare, "", out + segs)
    decreases |segs|
  {
    hide Scan, NoSemi, Whole, TrimLeft, TrimRight, SplRun;
    Starting();
    if segs == [] {
      UnfoldSplit("", 0, Spl(Bare, "", out));
      assert ""[0..] == "" && out + segs == out;
    } else {
      var seg, t := segs[0], Spl(Bare, "", out);
      assert seg in segs && "" + seg == seg;
      NoSemiCollects(seg, t);
      if |segs| == 1 {
        assert segs == [seg];
      } else {
        var rest := JoinSegments(segs[1..]);
        SplAppend(seg, ";" + rest, t);
        assert seg + ";" + rest == seg + (";" + rest);
        SplitHere(seg, rest, out);
        SegmentsRun(segs[1..], out + [seg]);
        assert out + [seg] + segs[1..] == out + segs;
      }
    }
  }

  lemma SplitHere(seg: string, rest: string, out: seq<string>)
    requires IsSegment(seg)
    ensures SplRun(";" + rest, Spl(Bare, seg, out)) == SplRun(rest, Spl(Bare, "", out + [seg]))
  {
    hide Scan, NoSemi, Whole, TrimLeft, TrimRight;
    assert (";" + rest)[1..] == rest;
  }

  /** Nothing is lost or merged: segments joined by `;` come back as they were. */
  lemma SegmentsRoundTrip(segs: seq<string>)
    requires forall seg | seg in segs :: IsSegment(seg) && Whole(seg, Bare)
    ensures Segments(JoinSegments(segs)) == Some(segs)
  {
    hide SplRun, JoinSegments, IsSegment, Whole, Trim;
    SegmentsRun(segs, []);
    assert SPL_START.out + segs == segs;
  }

  /** What is typed between two separators: a segment or nothing, with white space around it. */
  datatype Chunk = Chunk(before: string, seg: string, after: string)

  predicate AllSpace(s: string) {
    forall i | 0 <= i < |s| :: IsSpace(s[i] as int)
  }

  /** A segment has no separator of its own, no quote left open, and no white space at either end. */
  ghost predicate ChunkOk(c: Chunk) {
    && AllSpace(c.before) && AllSpace(c.after)
    && NoSemi(c.seg, Bare) && Scan(c.seg, Bare) == Bare && Whole(c.seg, Bare)
    && (c.seg != "" ==> !IsSpace(c.seg[0] as int) && !IsSpace(c.seg[|c.seg| - 1] as int))
  }

  function TypedChunks(cs: seq<Chunk>): string {
    if cs == [] then "" else ChunkText(cs[0]) + (if |cs| == 1 then "" else ";" + TypedChunks(cs[1..]))
  }

  function SegsOf(cs: seq<Chunk>): seq<string> {
    if cs == [] then [] else (if cs[0].seg != "" then [cs[0].seg] else []) + SegsOf(cs[1..])
  }

  lemma {:induction false} TrimLeftIs(ws: string, rest: string)
    requires AllSpace(ws) && (rest != "" ==> !IsSpace(rest[0] as int))
    ensures TrimLeft(ws + rest) == rest
    decreases |ws|
  {
    hide IsSpace;
    if ws == "" {
      assert ws + rest == rest;
    } else {
      assert (ws + rest)[1..] == ws[1..] + rest && (ws + rest)[0] == ws[0];
      TrimLeftIs(ws[1..], rest);
    }
  }

  lemma {:induction false} TrimRightIs(rest: string, ws: string)
    requires AllSpace(ws) && (rest != "" ==> !IsSpace(rest[|rest| - 1] as int))
    ensures TrimRight(rest + ws) == rest
    decreases |ws|
  {
    hide IsSpace;
    if ws == "" {
      assert rest + ws == rest;
    } else {
      var n := |ws| - 1;
      assert (rest + ws)[..|rest| + n] == rest + ws[..n] && (rest + ws)[|rest| + n] == ws[n];
      TrimRightIs(rest, ws[..n]);
    }
  }

  lemma TrimChunk(c: Chunk)
    requires ChunkOk(c)
    ensures Trim(c.before + c.seg + c.after) == c.seg
  {
    hide IsSpace, NoSemi, Scan, Whole, TrimLeft, TrimRight;
    if c.seg == "" {
      var ws := c.before + c.after;
      assert c.before + c.seg + c.after == ws + "";
      TrimLeftIs(ws, "");
      TrimRightIs("", "");
      assert "" + "" == "";
    } else {
      assert c.before + c.seg + c.after == c.before + (c.seg + c.after);
      assert (c.seg + c.after)[0] == c.seg[0];
      TrimLeftIs(c.before, c.seg + c.after);
      TrimRightIs(c.seg, c.after);
    }
  }

  lemma {:induction false} SpaceScans(s: string)
    requires AllSpace(s)
    ensures NoSemi(s, Bare) && Scan(s, Bare) == Bare && Whole(s, Bare)
    decreases |s|
  {
    if s != "" {
      assert IsSpace(s[0] as int) && s[0] != '\\' && s[0] != ';';
      assert forall i | 0 <= i < |s| - 1 :: s[1..][i] == s[i + 1];
      SpaceScans(s[1..]);
    }
  }

  lemma ChunkScans(c: Chunk)
    requires ChunkOk(c)
    ensures var text := ChunkText(c); NoSemi(text, Bare) && Scan(text, Bare) == Bare && Whole(text, Bare)
  {
    hide NoSemi, Scan, Whole;
    SpaceScans(c.before);
    SpaceScans(c.after);
    ScanAppend(c.before, c.seg, Bare);
    NoSemiAppend(c.before, c.seg, Bare);
    ScanAppend(c.before + c.seg, c.after, Bare);
    NoSemiAppend(c.before + c.seg, c.after, Bare);
  }

  function ChunkText(c: Chunk): string {
    c.before + c.seg + c.after
  }

  /** One chunk read up to its end. */
  lemma ChunkRun(c: Chunk, out: seq<string>)
    requires ChunkOk(c)
    ensures Whole(ChunkText(c), Bare)
    ensures SplRun(ChunkText(c), Spl(Bare, "", out)) == Spl(Bare, ChunkText(c), out)
    ensures Spl(Bare, ChunkText(c), out).Flush() == Spl(Bare, "", if c.seg != "" then out + [c.seg] else out)
  {
    hide Scan, NoSemi, Whole, Trim, SplRun, ChunkOk;
    ChunkScans(c);
    TrimChunk(c);
    NoSemiCollects(ChunkText(c), Spl(Bare, "", out));
    assert "" + ChunkText(c) == ChunkText(c);
  }

  lemma {:induction false} ChunksRun(cs: seq<Chunk>, out: seq<string>)
    requires cs != [] && forall i | 0 <= i < |cs| :: ChunkOk(cs[i])
    ensures SplRun(TypedChunks(cs), Spl(Bare, "", out)).Flush() == Spl(Bare, "", out + SegsOf(cs))
    decreases |cs|
  {
    hide Whole, SplRun, ChunkOk, ChunkText, Trim, SegsOf, TypedChunks;
    var c, t := cs[0], Spl(Bare, "", out);
    ChunkRun(c, out);
    SegsMore(cs, out);
    var out' := if c.seg != "" then out + [c.seg] else out;
    if |cs| == 1 {
      TypedOne(cs);
    } else {
      var rest := TypedChunks(cs[1..]);
      TypedMore(cs);
      SplAppend(ChunkText(c), ";" + rest, t);
      FlushHere(ChunkText(c), rest, out);
      ChunksRun(cs[1..], out');
    }
  }

  lemma SegsMore(cs: seq<Chunk>, out: seq<string>)
    requires cs != []
    ensures (if cs[0].seg != "" then out + [cs[0].seg] else out) + SegsOf(cs[1..]) == out + SegsOf(cs)
    ensures |cs| == 1 ==> (if cs[0].seg != "" then out + [cs[0].seg] else out) == out + SegsOf(cs)
  {
    var first, rest := if cs[0].seg != "" then [cs[0].seg] else [], SegsOf(cs[1..]);
    assert SegsOf(cs) == first + rest;
    assert (if cs[0].seg != "" then out + [cs[0].seg] else out) == out + first;
    Assoc(out, first, rest);
    if |cs| == 1 {
      assert rest == [] && first + rest == first;
    }
  }

  lemma TypedOne(cs: seq<Chunk>)
    requires |cs| == 1
    ensures TypedChunks(cs) == ChunkText(cs[0])
  {
  }

  lemma TypedMore(cs: seq<Chunk>)
    requires |cs| > 1
    ensures TypedChunks(cs) == ChunkText(cs[0]) + (";" + TypedChunks(cs[1..]))
  {
  }

  lemma FlushHere(text: string, rest: string, out: seq<string>)
    ensures SplRun(";" + rest, Spl(Bare, text, out)) == SplRun(rest, Spl(Bare, text, out).Flush())
  {
    hide Trim;
    assert (";" + rest)[1..] == rest;
  }

  /**
   A line is cut at the `;` outside quotes and escapes, the white space around each segment
   goes, and empty segments are dropped.
   */
  lemma ChunksSplit(cs: seq<Chunk>)
    requires cs != [] && forall i | 0 <= i < |cs| :: ChunkOk(cs[i])
    ensures Segments(TypedChunks(cs)) == Some(SegsOf(cs))
  {
    hide SplRun, ChunkOk, Trim;
    ChunksRun(cs, []);
    assert [] + SegsOf(cs) == SegsOf(cs);
  }

  // ---- CompletionPartial ----

  datatype Cmp = Cmp(quote: Quote, hasToken: bool, start: nat)

  const CMP_START := Cmp(Bare, false, 0)

  function CmpOne(buf: string, i: nat, t: Cmp): Cmp
    requires i < |buf|
  {
    if t.quote == Bare then
      if IsBlank(buf[i]) then t.(hasToken := false)
      else Cmp(After(buf[i..], Bare), true, if t.hasToken then t.start else i)
    else t.(quote := After(buf[i..], t.quote))
  }

  function CmpRun(buf: string, i: nat, t: Cmp): Cmp
    requires i <= |buf|
    decreases |buf| - i
  {
    if i == |buf| then t else CmpRun(buf, i + Advance(buf[i..], t.quote), CmpOne(buf, i, t))
  }

  /** The word being typed at the end of buf, and whether it sits inside an open quote. */
  function Partial(buf: string): (r: (string, bool))
    ensures |r.0| <= |buf|
  {
    var t := CmpRun(buf, 0, CMP_START);
    (if t.hasToken && t.start <= |buf| then buf[t.start..] else "", t.quote != Bare)
  }

  method CompletionPartial(buf: string) returns (partial: string, inQuote: bool)
    ensures (partial, inQuote) == Partial(buf)
  {
    var quote := Bare;
    var tokenStart := 0;
    var hasToken := false;
    var i := 0;
    while i < |buf|
      invariant i <= |buf| && tokenStart <= i
      invariant CmpRun(buf, 0, CMP_START) == CmpRun(buf, i, Cmp(quote, hasToken, tokenStart))
      decreases |buf| - i
    {
      var c := buf[i];
      assert buf[i..][0] == c;
      if quote == Bare {
        if c == ' ' || c == '\t' {
          hasToken := false;
        } else {
          if !hasToken {
            tokenStart, hasToken := i, true;
          }
          if c == '"' || c == '\'' {
            quote := if c == '"' then Double else Single;
          } else if c == '\\' && i + 1 < |buf| {
            i := i + 1;
          }
        }
      } else if c == (if quote == Double then '"' else '\'') {
        quote := Bare;
      } else if quote == Double && c == '\\' && i + 1 < |buf| {
        i := i + 1;
      }
      i := i + 1;
    }
    if !hasToken {
      return "", quote != Bare;
    }
    return buf[tokenStart..], quote != Bare;
  }

  /** The two machines after the first i characters: the token in progress began at `start`. */
  ghost predicate InStep(buf: string, i: nat, c: Cmp, t: Tok)
    requires i <= |buf|
  {
    && c.quote == t.quote && c.hasToken == t.inTok
    && (!t.inTok ==> t.quote == Bare && t.cur == "")
    && Whole(buf[..i], Bare) && TokRun(buf[..i], TOK_START) == t
    && (c.hasToken ==>
          && c.start < i && !IsBlank(buf[c.start])
          && Whole(buf[..c.start], Bare)
          && TokRun(buf[..c.start], TOK_START) == Tok(Bare, false, "", t.out))
    && (!c.hasToken ==> i == 0 || (IsBlank(buf[i - 1]) && Whole(buf[..i - 1], Bare)))
  }

  lemma InStepOne(buf: string, i: nat, c: Cmp, t: Tok)
    requires i < |buf| && InStep(buf, i, c, t) && (buf[i..] == "\\" ==> t.quote == Single)
    ensures var n := Advance(buf[i..], t.quote);
      InStep(buf, i + n, CmpOne(buf, i, c), TokOne(buf[i..], t))
  {
    var rest := buf[i..];
    var n := Advance(rest, t.quote);
    var step := buf[i..i + n];
    assert step == rest[..n];
    assert buf[..i + n] == buf[..i] + step;
    assert step[Advance(step, t.quote)..] == "";
    TokQuote(buf[..i], TOK_START);
    ScanAppend(buf[..i], step, Bare);
    TokAppend(buf[..i], step, TOK_START);
    assert TokOne(step, t) == TokOne(rest, t);
    assert TokRun(step, t) == TokOne(rest, t);
  }

  lemma DanglingBackslash(buf: string, i: nat, c: Cmp, t: Tok)
    requires i < |buf| && InStep(buf, i, c, t) && buf[i..] == "\\" && t.quote != Single
    ensures var c' := CmpRun(buf, i, c);
      var t' := TokRun(buf, TOK_START);
      && c'.quote == t'.quote && c'.hasToken && t'.inTok
      && c'.start < |buf| && !IsBlank(buf[c'.start]) && Whole(buf[..c'.start], Bare)
      && TokRun(buf[..c'.start], TOK_START) == Tok(Bare, false, "", t'.out)
  {
    var rest := buf[i..];
    assert buf == buf[..i] + rest;
    TokAppend(buf[..i], rest, TOK_START);
    assert rest[1..] == "";
    assert TokRun(rest, t) == TokOne(rest, t);
  }

  /** Ran to the end, the completion scanner has found the last token of the tokenizer. */
  lemma {:induction false} RunInStep(buf: string, i: nat, c: Cmp, t: Tok)
    requires i <= |buf| && InStep(buf, i, c, t)
    ensures var c' := CmpRun(buf, i, c);
      var t' := TokRun(buf, TOK_START);
      && c'.quote == t'.quote && c'.hasToken == t'.inTok
      && (t'.inTok ==>
            && c'.start < |buf| && !IsBlank(buf[c'.start]) && Whole(buf[..c'.start], Bare)
            && TokRun(buf[..c'.start], TOK_START) == Tok(Bare, false, "", t'.out))
      && (!t'.inTok ==>
            && t'.quote == Bare
            && (buf == "" || (IsBlank(buf[|buf| - 1]) && Whole(buf[..|buf| - 1], Bare))))
    decreases |buf| - i
  {
    if i == |buf| {
      assert buf[..i] == buf;
    } else if buf[i..] == "\\" && t.quote != Single {
      DanglingBackslash(buf, i, c, t);
    } else {
      hide InStep, TokRun, Whole, CmpOne, TokOne;
      InStepOne(buf, i, c, t);
      RunInStep(buf, i + Advance(buf[i..], t.quote), CmpOne(buf, i, c), TokOne(buf[i..], t));
    }
  }

  /** The three scanners agree on which lines have an open quote. */
  lemma ScannersAgree(s: string)
    ensures Tokens(s).None? <==> Segments(s).None?
    ensures Tokens(s).None? <==> Partial(s).1
  {
    TokQuote(s, TOK_START);
    SplQuote(s, SPL_START);
    assert s[..0] == "";
    RunInStep(s, 0, CMP_START, TOK_START);
  }

  /** From where the last token began, tokenizing gives that token alone. */
  lemma LastToken(buf: string, start: nat)
    requires start < |buf| && Whole(buf[..start], Bare)
    requires var t := TokRun(buf, TOK_START);
      t.quote == Bare && t.inTok && TokRun(buf[..start], TOK_START) == Tok(Bare, false, "", t.out)
    ensures var t := TokRun(buf, TOK_START);
      && Tokens(buf[..start]) == Some(t.out)
      && Tokens(buf) == Some(t.out + [t.cur])
      && Tokens(buf[start..]) == Some([t.cur])
  {
    hide TokRun, Whole;
    var t := TokRun(buf, TOK_START);
    var head, partial := buf[..start], buf[start..];
    assert buf == head + partial;
    TokAppend(head, partial, TOK_START);
    TokShift(partial, TOK_START, t.out);
    assert t.out + TOK_START.out == t.out;
    var p := TokRun(partial, TOK_START);
    assert t.out + p.out == t.out;
    assert p.out == [];
    assert p.out + [p.cur] == [p.cur];
  }

  /**
   On a balanced buffer the partial word is exactly the last token: it tokenizes to
   that token alone, and what stands before it to the tokens before. An empty
   partial means an empty buffer or one ending in a blank that nothing escapes.
   */
  lemma CompletionDecomposes(buf: string)
    requires !Partial(buf).1
    ensures var partial := Partial(buf).0;
      && |partial| <= |buf| && buf[|buf| - |partial|..] == partial
      && var head := buf[..|buf| - |partial|];
      && Tokens(buf).Some? && Tokens(head).Some?
      && (partial != "" ==> exists t: string ::
            Tokens(buf) == Some(Tokens(head).value + [t]) && Tokens(partial) == Some([t]))
      && (partial == "" <==> buf == "" || (IsBlank(buf[|buf| - 1]) && Whole(buf[..|buf| - 1], Bare)))
      && (partial != "" ==> !IsBlank(partial[0]))
  {
    assert buf[..0] == "";
    RunInStep(buf, 0, CMP_START, TOK_START);
    var c := CmpRun(buf, 0, CMP_START);
    var t := TokRun(buf, TOK_START);
    if t.inTok {
      LastToken(buf, c.start);
      if IsBlank(buf[|buf| - 1]) && Whole(buf[..|buf| - 1], Bare) {
        BlankEnds(buf);
      }
    } else {
      assert buf[..|buf|] == buf;
    }
  }

  /** A blank that nothing takes with it ends the token. */
  lemma BlankEnds(buf: string)
    requires buf != "" && IsBlank(buf[|buf| - 1]) && Whole(buf[..|buf| - 1], Bare)
    requires TokRun(buf, TOK_START).quote == Bare
    ensures !TokRun(buf, TOK_START).inTok
  {
    var before, last := buf[..|buf| - 1], buf[|buf| - 1..];
    assert buf == before + last && last[1..] == "";
    TokAppend(before, last, TOK_START);
  }

  /** The argument slot being completed and the partial word in it; None when a quote is open. */
  /** The tokens before the partial word. */
  function Before(rest: string): Option<seq<string>> {
    Tokens(rest[..|rest| - |Partial(rest).0|])
  }

  lemma SlotIs(rest: string)
    ensures Tokens(rest).None? <==> Partial(rest).1
    ensures !Partial(rest).1 ==>
      && Before(rest).Some? && Tokens(rest).Some?
      && |Tokens(rest).value| == |Before(rest).value| + if Partial(rest).0 == "" then 0 else 1
  {
    hide Tokens, Partial, Whole, Segments;
    ScannersAgree(rest);
    if !Partial(rest).1 {
      CompletionDecomposes(rest);
      if Partial(rest).0 == "" {
        assert rest[..|rest|] == rest;
      }
    }
  }

  method CompleterSlot(rest: string) returns (slot: Option<nat>, partial: string)
    ensures partial == Partial(rest).0 && |partial| <= |rest|
    ensures slot.None? <==> Partial(rest).1
    ensures slot.Some? ==> Before(rest).Some? && slot.value == |Before(rest).value|
  {
    hide Tokens, Partial, Before;
    var inQuote;
    partial, inQuote := CompletionPartial(rest);
    var toks := Tokenize(rest);
    SlotIs(rest);
    if toks.None? {
      return None, partial;
    }
    if partial == "" {
      return Some(|toks.value|), "";
    }
    return Some(|toks.value| - 1), partial;
  }

  // ---- writing a line and tokenizing it ----

  /** A character in double quotes: itself, or behind a backslash. */
  datatype Quoted = As(c: char) | Escaped(c: char)

  /** What a word is written in: a bare character, one behind a backslash, or a stretch in quotes. */
  datatype Piece = Bared(c: char) | Backslashed(c: char) | InDouble(chars: seq<Quoted>) | InSingle(text: string)

  /** A word and the blanks behind it. */
  datatype Word = Word(pieces: seq<Piece>, gap: string)

  predicate PieceOk(p: Piece) {
    match p
    case Bared(c) => c !in {' ', '\t', '"', '\'', '\\'}
    case Backslashed(_) => true
    case InDouble(text) => forall i | 0 <= i < |text| :: text[i].As? ==> text[i].c !in {'"', '\\'}
    case InSingle(text) => '\'' !in text
  }

  function QuotedChars(text: seq<Quoted>): string {
    if text == [] then "" else (if text[0].As? then [text[0].c] else ['\\', text[0].c]) + QuotedChars(text[1..])
  }

  /** As it is typed. */
  function Typed(p: Piece): string {
    match p
    case Bared(c) => [c]
    case Backslashed(c) => ['\\', c]
    case InDouble(text) => "\"" + QuotedChars(text) + "\""
    case InSingle(text) => "'" + text + "'"
  }

  /** Behind a backslash in double quotes n, t and r stand for control characters, anything else for itself. */
  function Meant(q: Quoted): char {
    if q.Escaped? && q.c == 'n' then '\n'
    else if q.Escaped? && q.c == 't' then '\t'
    else if q.Escaped? && q.c == 'r' then '\r'
    else q.c
  }

  /** What it stands for. */
  function Value(p: Piece): string {
    match p
    case Bared(c) => [c]
    case Backslashed(c) => [c]
    case InDouble(text) => seq(|text|, i requires 0 <= i < |text| => Meant(text[i]))
    case InSingle(text) => text
  }

  function TypedAll(ps: seq<Piece>): string {
    if ps == [] then "" else Typed(ps[0]) + TypedAll(ps[1..])
  }

  function ValueAll(ps: seq<Piece>): string {
    if ps == [] then "" else Value(ps[0]) + ValueAll(ps[1..])
  }

  function TypedWords(ws: seq<Word>): string {
    if ws == [] then "" else TypedAll(ws[0].pieces) + ws[0].gap + TypedWords(ws[1..])
  }

  function ValueWords(ws: seq<Word>): (ts: seq<string>)
    ensures |ts| == |ws|
  {
    seq(|ws|, i requires 0 <= i < |ws| => ValueAll(ws[i].pieces))
  }

  predicate Blanks(s: string) {
    forall i | 0 <= i < |s| :: s[i] in {' ', '\t'}
  }

  /** Words of one piece at least, with blanks between any two. */
  ghost predicate WordsOk(ws: seq<Word>) {
    && (forall i | 0 <= i < |ws| :: ws[i].pieces != [] && Blanks(ws[i].gap))
    && (forall i, j | 0 <= i < |ws| && 0 <= j < |ws[i].pieces| :: PieceOk(ws[i].pieces[j]))
    && (forall i | 0 <= i < |ws| - 1 :: ws[i].gap != "")
  }

  lemma {:induction false} DoubleRun(text: seq<Quoted>, cur: string, out: seq<string>)
    requires PieceOk(InDouble(text))
    ensures Whole(QuotedChars(text), Double) && Scan(QuotedChars(text), Double) == Double
    ensures TokRun(QuotedChars(text), Tok(Double, true, cur, out))
         == Tok(Double, true, cur + Value(InDouble(text)), out)
    decreases |text|
  {
    if text == [] {
      assert cur + Value(InDouble(text)) == cur;
    } else {
      var q, rest := text[0], QuotedChars(text[1..]);
      DoubleRun(text[1..], cur + [Meant(q)], out);
      DoubleChar(q, rest, cur, out);
      assert cur + [Meant(q)] + Value(InDouble(text[1..])) == cur + Value(InDouble(text));
    }
  }

  lemma DoubleChar(q: Quoted, rest: string, cur: string, out: seq<string>)
    requires q.As? ==> q.c !in {'"', '\\'}
    ensures var e := (if q.As? then [q.c] else ['\\', q.c]) + rest;
      && (Whole(e, Double) <==> Whole(rest, Double))
      && Scan(e, Double) == Scan(rest, Double)
      && TokRun(e, Tok(Double, true, cur, out)) == TokRun(rest, Tok(Double, true, cur + [Meant(q)], out))
  {
    var e := (if q.As? then [q.c] else ['\\', q.c]) + rest;
    var n := if q.As? then 1 else 2;
    assert e[n..] == rest && Advance(e, Double) == n && After(e, Double) == Double && e != "\\";
    assert TokOne(e, Tok(Double, true, cur, out)) == Tok(Double, true, cur + [Meant(q)], out);
  }

  lemma {:induction false} SingleRun(text: string, cur: string, out: seq<string>)
    requires '\'' !in text
    ensures Whole(text, Single) && Scan(text, Single) == Single
    ensures TokRun(text, Tok(Single, true, cur, out)) == Tok(Single, true, cur + text, out)
    decreases |text|
  {
    if text == "" {
      assert cur + text == cur;
    } else {
      assert text[0] in text;
      SingleRun(text[1..], cur + [text[0]], out);
      assert cur + [text[0]] + text[1..] == cur + text;
    }
  }

  /** A piece adds what it stands for to the token, and opens one if none was. */
  lemma PieceRun(p: Piece, inTok: bool, cur: string, out: seq<string>)
    requires PieceOk(p)
    ensures Whole(Typed(p), Bare) && Scan(Typed(p), Bare) == Bare
    ensures TokRun(Typed(p), Tok(Bare, inTok, cur, out)) == Tok(Bare, true, cur + Value(p), out)
  {
    match p
    case Bared(c) =>
      assert [c][1..] == "";
    case Backslashed(c) =>
      assert ['\\', c][2..] == "";
    case InDouble(text) =>
      DoubleRun(text, cur, out);
      Enclosed("\"", QuotedChars(text), Double, inTok, cur, out);
    case InSingle(text) =>
      SingleRun(text, cur, out);
      Enclosed("'", text, Single, inTok, cur, out);
  }

  lemma Enclosed(mark: string, text: string, q: Quote, inTok: bool, cur: string, out: seq<string>)
    requires (mark == "\"" && q == Double) || (mark == "'" && q == Single)
    requires Whole(text, q) && Scan(text, q) == q && TokRun(text, Tok(q, true, cur, out)).quote == q
    requires TokRun(text, Tok(q, true, cur, out)).inTok
    ensures var s := mark + text + mark;
      && Whole(s, Bare) && Scan(s, Bare) == Bare
      && TokRun(s, Tok(Bare, inTok, cur, out)) == TokRun(text, Tok(q, true, cur, out)).(quote := Bare)
  {
    assert mark[1..] == "";
    var t := Tok(Bare, inTok, cur, out);
    ScanAppend(mark, text, Bare);
    TokAppend(mark, text, t);
    ScanAppend(mark + text, mark, Bare);
    TokAppend(mark + text, mark, t);
  }

  lemma {:induction false} PiecesRun(ps: seq<Piece>, inTok: bool, cur: string, out: seq<string>)
    requires forall j | 0 <= j < |ps| :: PieceOk(ps[j])
    ensures Whole(TypedAll(ps), Bare) && Scan(TypedAll(ps), Bare) == Bare
    ensures TokRun(TypedAll(ps), Tok(Bare, inTok, cur, out))
         == Tok(Bare, inTok || ps != [], cur + ValueAll(ps), out)
    decreases |ps|
  {
    hide Whole, Scan, TokRun, Typed, Value, PieceOk;
    if ps == [] {
      Nothing(Tok(Bare, inTok, cur, out));
      assert cur + "" == cur;
    } else {
      var first, rest := Typed(ps[0]), TypedAll(ps[1..]);
      PieceRun(ps[0], inTok, cur, out);
      PiecesRun(ps[1..], true, cur + Value(ps[0]), out);
      ScanAppend(first, rest, Bare);
      TokAppend(first, rest, Tok(Bare, inTok, cur, out));
      assert cur + Value(ps[0]) + ValueAll(ps[1..]) == cur + ValueAll(ps);
    }
  }

  lemma Nothing(t: Tok)
    ensures TokRun("", t) == t && Whole("", t.quote) && Scan("", t.quote) == t.quote
  {
  }

  lemma {:induction false} BlanksRun(gap: string, t: Tok)
    requires Blanks(gap) && t.quote == Bare
    ensures Whole(gap, Bare) && Scan(gap, Bare) == Bare
    ensures TokRun(gap, t) == if gap == "" then t else t.Flush()
    decreases |gap|
  {
    if gap != "" {
      assert gap[0] in {' ', '\t'} && gap != "\\";
      BlanksRun(gap[1..], t.Flush());
    }
  }

  lemma {:induction false} WordsRun(ws: seq<Word>, out: seq<string>)
    requires WordsOk(ws)
    ensures var t := TokRun(TypedWords(ws), Tok(Bare, false, "", out));
      t.quote == Bare && t.Flush().out == out + ValueWords(ws)
    decreases |ws|
  {
    hide Whole, Scan, TokRun, TypedAll, ValueAll, PieceOk, Blanks;
    var start := Tok(Bare, false, "", out);
    if ws == [] {
      Nothing(start);
      assert out + ValueWords(ws) == out;
    } else {
      var w, rest := ws[0], TypedWords(ws[1..]);
      var word, value := TypedAll(w.pieces), ValueAll(w.pieces);
      var held := Tok(Bare, true, "" + value, out);
      PiecesRun(w.pieces, false, "", out);
      assert "" + value == value;
      BlanksRun(w.gap, held);
      ScanAppend(word, w.gap, Bare);
      TokAppend(word, w.gap, start);
      TokAppend(word + w.gap, rest, start);
      if w.gap == "" {
        assert |ws| == 1 && rest == "";
        Nothing(held);
        assert out + ValueWords(ws) == out + [value];
      } else {
        WordsRun(ws[1..], out + [value]);
        assert out + [value] + ValueWords(ws[1..]) == out + ValueWords(ws);
      }
    }
  }

  /**
   A line of words, each written in any mixture of bare characters, backslashes and the two
   quotes, tokenizes to exactly what the words stand for, whatever blanks are around them.
   */
  lemma WrittenLine(lead: string, ws: seq<Word>)
    requires Blanks(lead) && WordsOk(ws)
    ensures Tokens(lead + TypedWords(ws)) == Some(ValueWords(ws))
  {
    hide Whole, Scan, TokRun, Blanks, WordsOk;
    BlanksRun(lead, TOK_START);
    TokAppend(lead, TypedWords(ws), TOK_START);
    WordsRun(ws, []);
    assert [] + ValueWords(ws) == ValueWords(ws);
  }

  /** With a quote left open behind it, it does not tokenize. */
  lemma OpenQuoteFails(lead: string, ws: seq<Word>, open: Piece)
    requires Blanks(lead) && WordsOk(ws) && PieceOk(open) && (open.InDouble? || open.InSingle?)
    ensures Tokens(lead + TypedWords(ws) + Typed(open)[..|Typed(open)| - 1]) == None
  {
    var line := lead + TypedWords(ws);
    var mark, text := Typed(open)[..1], if open.InDouble? then QuotedChars(open.chars) else open.text;
    var q := if open.InDouble? then Double else Single;
    assert Typed(open)[..|Typed(open)| - 1] == mark + text;
    if open.InDouble? {
      DoubleRun(open.chars, "", []);
    } else {
      SingleRun(open.text, "", []);
    }
    LineWhole(lead, ws);
    assert mark[1..] == "";
    ScanAppend(mark, text, Bare);
    ScanAppend(line, mark + text, Bare);
    TokQuote(line + (mark + text), TOK_START);
  }

  lemma LineWhole(lead: string, ws: seq<Word>)
    requires Blanks(lead) && WordsOk(ws)
    ensures var line := lead + TypedWords(ws); Whole(line, Bare) && Scan(line, Bare) == Bare
  {
    BlanksRun(lead, TOK_START);
    WordsWhole(ws);
    ScanAppend(lead, TypedWords(ws), Bare);
  }

  lemma {:induction false} WordsWhole(ws: seq<Word>)
    requires WordsOk(ws)
    ensures Whole(TypedWords(ws), Bare) && Scan(TypedWords(ws), Bare) == Bare
    decreases |ws|
  {
    hide TypedAll, PieceOk, Blanks;
    if ws != [] {
      var w := ws[0];
      PiecesRun(w.pieces, false, "", []);
      BlanksRun(w.gap, TOK_START);
      WordsWhole(ws[1..]);
      ScanAppend(TypedAll(w.pieces), w.gap, Bare);
      ScanAppend(TypedAll(w.pieces) + w.gap, TypedWords(ws[1..]), Bare);
    }
  }

  /** Any text in double quotes, quotes and backslashes behind a backslash. */
  function InQuotes(t: string): (p: Piece)
    ensures PieceOk(p) && Value(p) == t
  {
    InDouble(seq(|t|, i requires 0 <= i < |t| => if t[i] in {'"', '\\'} then Escaped(t[i]) else As(t[i])))
  }

  function Render(ts: seq<string>): (ws: seq<Word>)
    ensures |ws| == |ts|
  {
    seq(|ts|, i requires 0 <= i < |ts| => Word([InQuotes(ts[i])], if i + 1 == |ts| then "" else " "))
  }

  /** So every list of tokens, of any characters, is recovered from a way to write it. */
  lemma RenderRoundTrip(ts: seq<string>)
    ensures Tokens(TypedWords(Render(ts))) == Some(ts)
  {
    var ws := Render(ts);
    forall i | 0 <= i < |ts|
      ensures ValueAll(ws[i].pieces) == ts[i]
    {
      assert ValueAll([InQuotes(ts[i])]) == ts[i] + "";
    }
    assert ValueWords(ws) == ts;
    WrittenLine("", ws);
    assert "" + TypedWords(ws) == TypedWords(ws);
  }

  /** A list of words without blank, quote or backslash, joined by blanks, gives exactly those words. */
  lemma PlainWords(ts: seq<string>)
    requires forall i | 0 <= i < |ts| :: ts[i] != "" && forall j | 0 <= j < |ts[i]| :: PieceOk(Bared(ts[i][j]))
    ensures Tokens(Joined(ts)) == Some(ts)
  {
    var ws := seq(|ts|, i requires 0 <= i < |ts| => Word(Letters(ts[i]), if i + 1 == |ts| then "" else " "));
    forall i | 0 <= i < |ts|
      ensures ValueAll(ws[i].pieces) == ts[i]
    {
      LettersMean(ts[i]);
    }
    assert ValueWords(ws) == ts;
    JoinedIsTyped(ts, ws);
    WrittenLine("", ws);
    assert "" + TypedWords(ws) == TypedWords(ws);
  }

  function Joined(ts: seq<string>): string {
    if ts == [] then "" else if |ts| == 1 then ts[0] else ts[0] + " " + Joined(ts[1..])
  }

  function Letters(t: string): (ps: seq<Piece>)
    ensures |ps| == |t|
  {
    seq(|t|, i requires 0 <= i < |t| => Bared(t[i]))
  }

  lemma {:induction false} LettersMean(t: string)
    ensures ValueAll(Letters(t)) == t && TypedAll(Letters(t)) == t
  {
    if t != "" {
      assert Letters(t)[1..] == Letters(t[1..]);
      LettersMean(t[1..]);
    }
  }

  lemma {:induction false} JoinedIsTyped(ts: seq<string>, ws: seq<Word>)
    requires |ws| == |ts|
    requires forall i | 0 <= i < |ts| :: ws[i] == Word(Letters(ts[i]), if i + 1 == |ts| then "" else " ")
    ensures TypedWords(ws) == Joined(ts)
  {
    if ts != [] {
      LettersMean(ts[0]);
      JoinedIsTyped(ts[1..], ws[1..]);
    }
  }
}
