/**
 Telnet subnegotiation: the frames the server builds, with IAC doubled in the
 payload ("TELNET COMMAND STRUCTURE" of RFC 854), and the reader of such frames.

 Reading is a function of the bytes, so that what is consumed can be stated
 exactly: the reader and the escaping are inverse to each other, up to the limit.
 */
module Subnegotiation {
  import opened Utf8

  const IAC: Byte := 255
  const DONT: Byte := 254
  const WILL: Byte := 251
  const SB: Byte := 250
  const SE: Byte := 240
  const OPT_MSSP: Byte := 70
  const OPT_GMCP: Byte := 201
  const MSSP_VAR: Byte := 1
  const MSSP_VAL: Byte := 2
  const BLANK: Byte := 32
  const MAX_PAYLOAD := 4096

  // ---- payload bytes ----

  function Escaped(s: seq<Byte>): seq<Byte> {
    if s == [] then [] else (if s[0] == IAC then [IAC, IAC] else [s[0]]) + Escaped(s[1..])
  }

  lemma {:induction false} EscapedAppend(a: seq<Byte>, b: seq<Byte>)
    ensures Escaped(a + b) == Escaped(a) + Escaped(b)
  {
    if a == [] {
      assert a + b == b;
    } else {
      assert (a + b)[1..] == a[1..] + b;
      EscapedAppend(a[1..], b);
    }
  }

  lemma EscapedNone()
    ensures Escaped([]) == []
  {
  }

  lemma EscapedOne(b: Byte)
    ensures Escaped([b]) == if b == IAC then [IAC, IAC] else [b]
  {
    assert Escaped([b][1..]) == [];
  }

  datatype Read = Got(data: seq<Byte>, rest: seq<Byte>) | TooLong(rest: seq<Byte>) | Eof

  /** Reads payload bytes after the `data` read so far, up to an IAC that no IAC follows. */
  function ReadPayload(bs: seq<Byte>, data: seq<Byte>): Read
    decreases |bs|
  {
    if |data| > MAX_PAYLOAD then TooLong(bs)
    else if bs == [] then Eof
    else if bs[0] != IAC then ReadPayload(bs[1..], data + [bs[0]])
    else if |bs| == 1 then Eof
    else if bs[1] == IAC then ReadPayload(bs[2..], data + [IAC])
    else Got(data, bs[2..])
  }

  lemma {:induction false} ReadEscaped(p: seq<Byte>, data: seq<Byte>, tail: seq<Byte>)
    requires |data| + |p| <= MAX_PAYLOAD + 1
    ensures ReadPayload(Escaped(p) + tail, data) == ReadPayload(tail, data + p)
    decreases |p|
  {
    hide ReadPayload, Escaped;
    if p == [] {
      EscapedNone();
      assert Escaped(p) + tail == tail && data + p == data;
    } else {
      var more := Escaped(p[1..]) + tail;
      EscapedHead(p, tail);
      ReadOne(p[0], data, more);
      ReadEscaped(p[1..], data + [p[0]], tail);
      assert data + [p[0]] + p[1..] == data + p;
    }
  }

  lemma EscapedHead(p: seq<Byte>, tail: seq<Byte>)
    requires p != []
    ensures Escaped(p) + tail == Escaped([p[0]]) + (Escaped(p[1..]) + tail)
  {
    EscapedOne(p[0]);
  }

  lemma ReadOne(b: Byte, data: seq<Byte>, more: seq<Byte>)
    requires |data| <= MAX_PAYLOAD
    ensures ReadPayload(Escaped([b]) + more, data) == ReadPayload(more, data + [b])
  {
    EscapedOne(b);
    var bs := Escaped([b]) + more;
    assert bs[|Escaped([b])|..] == more;
  }

  /** A payload comes back whole, with exactly the frame consumed, or is refused: the limit decides. */
  lemma PayloadRoundTrip(p: seq<Byte>, rest: seq<Byte>)
    ensures ReadPayload(Escaped(p) + [IAC, SE] + rest, []) ==
      if |p| <= 4096 then Got(p, rest)
      else TooLong(Escaped(p[4097..]) + [IAC, SE] + rest)
  {
    var tail := [IAC, SE] + rest;
    assert Escaped(p) + [IAC, SE] + rest == Escaped(p) + tail;
    if |p| <= MAX_PAYLOAD {
      ReadEscaped(p, [], tail);
      assert [] + p == p && tail[2..] == rest;
    } else {
      var head, over := p[..MAX_PAYLOAD + 1], p[MAX_PAYLOAD + 1..];
      assert p == head + over;
      EscapedAppend(head, over);
      assert Escaped(p) + tail == Escaped(head) + (Escaped(over) + tail);
      ReadEscaped(head, [], Escaped(over) + tail);
      assert [] + head == head;
      assert Escaped(over) + tail == Escaped(over) + [IAC, SE] + rest;
    }
  }

  /** Whatever is read was written so: the reader accepts nothing but escaped payloads within the limit. */
  lemma {:induction false} ReadIsInverse(bs: seq<Byte>, data: seq<Byte>)
    ensures var r := ReadPayload(bs, data);
      r.Got? ==>
        && data <= r.data && |r.data| <= 4096
        && exists x: Byte {:trigger [IAC, x]} :: x != IAC && bs == Escaped(r.data[|data|..]) + [IAC, x] + r.rest
    decreases |bs|
  {
    hide Escaped;
    var r := ReadPayload(bs, data);
    if r.Got? {
      if bs[0] == IAC && bs[1] != IAC {
        assert data[|data|..] == [];
        EscapedNone();
        assert bs == [] + [IAC, bs[1]] + bs[2..];
      } else {
        var n := if bs[0] == IAC then 2 else 1;
        var data' := data + [bs[0]];
        ReadIsInverse(bs[n..], data');
        var x: Byte :| x != IAC && bs[n..] == Escaped(r.data[|data'|..]) + [IAC, x] + r.rest;
        ReadStep(bs, data, data', n, r.data, [IAC, x] + r.rest);
        assert bs == Escaped(r.data[|data|..]) + [IAC, x] + r.rest;
      }
    }
  }

  lemma ReadStep(bs: seq<Byte>, data: seq<Byte>, data': seq<Byte>, n: nat, all: seq<Byte>, tail: seq<Byte>)
    requires bs != [] && data' == data + [bs[0]] && data' <= all
    requires n == (if bs[0] == IAC then 2 else 1) && n <= |bs| && (bs[0] == IAC ==> bs[1] == IAC)
    requires bs[n..] == Escaped(all[|data'|..]) + tail
    ensures bs == Escaped(all[|data|..]) + tail
  {
    var p := all[|data|..];
    assert p[0] == bs[0] && p[1..] == all[|data'|..];
    assert bs == bs[..n] + bs[n..];
    assert bs[..n] == if bs[0] == IAC then [IAC, IAC] else [bs[0]];
  }

  // ---- frames ----

  function Frame(opt: Byte, payload: seq<Byte>): seq<Byte> {
    [IAC, SB, opt] + Escaped(payload) + [IAC, SE]
  }

  datatype Var = Var(name: seq<Byte>, value: seq<Byte>)

  function VarsPayload(vars: seq<Var>): seq<Byte> {
    if vars == [] then []
    else [MSSP_VAR] + vars[0].name + [MSSP_VAL] + vars[0].value + VarsPayload(vars[1..])
  }

  function GmcpPayload(pkg: seq<Byte>, body: seq<Byte>): seq<Byte> {
    pkg + [BLANK] + body
  }

  /** Appends a field with IAC doubled. */
  method AppendField(out: seq<Byte>, s: seq<Byte>) returns (r: seq<Byte>)
    ensures r == out + Escaped(s)
  {
    r := out;
    var i := 0;
    assert s[..0] == [];
    while i < |s|
      invariant i <= |s| && r == out + Escaped(s[..i])
    {
      assert s[..i + 1] == s[..i] + [s[i]];
      EscapedAppend(s[..i], [s[i]]);
      EscapedOne(s[i]);
      if s[i] == IAC {
        r := r + [IAC, IAC];
      } else {
        r := r + [s[i]];
      }
      i := i + 1;
    }
    assert s[..i] == s;
  }

  method EncodeMssp(vars: seq<Var>) returns (out: seq<Byte>)
    ensures out == Frame(OPT_MSSP, VarsPayload(vars))
  {
    out := [IAC, SB, OPT_MSSP];
    var i := 0;
    while i < |vars|
      invariant i <= |vars| && out == [IAC, SB, OPT_MSSP] + Escaped(VarsPayload(vars[..i]))
    {
      VarsPayloadStep(vars, i);
      out := out + [MSSP_VAR];
      out := AppendField(out, vars[i].name);
      out := out + [MSSP_VAL];
      out := AppendField(out, vars[i].value);
      i := i + 1;
    }
    assert vars[..i] == vars;
    out := out + [IAC, SE];
  }

  lemma {:induction false} VarsPayloadAppend(a: seq<Var>, b: seq<Var>)
    ensures VarsPayload(a + b) == VarsPayload(a) + VarsPayload(b)
  {
    if a == [] {
      assert a + b == b;
    } else {
      assert (a + b)[1..] == a[1..] + b;
      VarsPayloadAppend(a[1..], b);
    }
  }

  lemma VarsPayloadStep(vars: seq<Var>, i: nat)
    requires i < |vars|
    ensures Escaped(VarsPayload(vars[..i + 1])) ==
      Escaped(VarsPayload(vars[..i])) + [MSSP_VAR] + Escaped(vars[i].name) + [MSSP_VAL] + Escaped(vars[i].value)
  {
    var v := vars[i];
    assert vars[..i + 1] == vars[..i] + [v];
    VarsPayloadAppend(vars[..i], [v]);
    assert VarsPayload([v]) == [MSSP_VAR] + v.name + [MSSP_VAL] + v.value by {
      assert [v][1..] == [];
    }
    var before := VarsPayload(vars[..i]);
    EscapedAppend(before, [MSSP_VAR] + v.name + [MSSP_VAL] + v.value);
    EscapedAppend([MSSP_VAR] + v.name + [MSSP_VAL], v.value);
    EscapedAppend([MSSP_VAR] + v.name, [MSSP_VAL]);
    EscapedAppend([MSSP_VAR], v.name);
    EscapedOne(MSSP_VAR);
    EscapedOne(MSSP_VAL);
  }

  /** `body` is what the JSON encoder gave. */
  method EncodeGmcpFrame(pkg: seq<Byte>, body: seq<Byte>) returns (out: seq<Byte>)
    ensures out == Frame(OPT_GMCP, GmcpPayload(pkg, body))
  {
    out := [IAC, SB, OPT_GMCP];
    out := AppendField(out, pkg);
    out := out + [BLANK];
    out := AppendField(out, body);
    EscapedAppend(pkg + [BLANK], body);
    EscapedAppend(pkg, [BLANK]);
    EscapedOne(BLANK);
    out := out + [IAC, SE];
  }

  // ---- the reader ----

  /** The buffered connection. */
  class Reader {
    var pending: seq<Byte>

    constructor (input: seq<Byte>)
      ensures pending == input
    {
      pending := input;
    }

    method ReadByte() returns (b: Byte, ok: bool)
      modifies this
      ensures ok <==> old(pending) != []
      ensures ok ==> b == old(pending)[0] && pending == old(pending)[1..]
      ensures !ok ==> pending == []
    {
      if pending == [] {
        return 0, false;
      }
      b, ok := pending[0], true;
      pending := pending[1..];
    }
  }

  datatype Command =
    | Literal
    | Subnegotiated(opt: Byte, data: seq<Byte>)
    | Negotiated(cmd: Byte, opt: Byte)
    | Other(cmd: Byte)
    | TooLongError
    | EofError

  /** What the bytes after a leading IAC mean, and what is left of them. */
  function Meaning(bs: seq<Byte>): (r: (Command, seq<Byte>)) {
    if bs == [] then (EofError, [])
    else if bs[0] == IAC then (Literal, bs[1..])
    else if bs[0] == SB then
      if |bs| == 1 then (EofError, [])
      else
        match ReadPayload(bs[2..], [])
        case Got(data, rest) => (Subnegotiated(bs[1], data), rest)
        case TooLong(rest) => (TooLongError, rest)
        case Eof => (EofError, [])
    else if WILL <= bs[0] <= DONT then
      if |bs| == 1 then (EofError, []) else (Negotiated(bs[0], bs[1]), bs[2..])
    else (Other(bs[0]), bs[1..])
  }

  method ReadSubnegotiation(r: Reader) returns (c: Command)
    modifies r
    ensures (c, r.pending) == Meaning([SB] + old(r.pending))
  {
    ghost var whole := [SB] + r.pending;
    var opt, ok := r.ReadByte();
    if !ok {
      return EofError;
    }
    assert whole[2..] == r.pending;
    var data: seq<Byte> := [];
    while true
      invariant ReadPayload(r.pending, data) == ReadPayload(whole[2..], [])
      decreases |r.pending|
    {
      if |data| > MAX_PAYLOAD {
        return TooLongError;
      }
      var d, ok' := r.ReadByte();
      if !ok' {
        return EofError;
      }
      if d != IAC {
        data := data + [d];
        continue;
      }
      var next, ok'' := r.ReadByte();
      if !ok'' {
        return EofError;
      }
      if next == SE {
        return Subnegotiated(opt, data);
      } else if next == IAC {
        data := data + [IAC];
      } else {
        return Subnegotiated(opt, data);
      }
    }
  }

  /** Handles a command once its leading IAC is read. */
  method ReadIac(r: Reader) returns (c: Command)
    modifies r
    ensures (c, r.pending) == Meaning(old(r.pending))
  {
    var cmd, ok := r.ReadByte();
    if !ok {
      return EofError;
    }
    if cmd == IAC {
      return Literal;
    }
    if cmd == SB {
      assert [SB] + r.pending == old(r.pending);
      c := ReadSubnegotiation(r);
      return;
    }
    if WILL <= cmd <= DONT {
      var opt, ok' := r.ReadByte();
      if !ok' {
        return EofError;
      }
      return Negotiated(cmd, opt);
    }
    c := Other(cmd);
  }

  /** Reading a frame gives its option and its payload and leaves what follows, or is refused beyond the limit. */
  lemma FrameRoundTrip(opt: Byte, payload: seq<Byte>, rest: seq<Byte>)
    ensures |payload| <= MAX_PAYLOAD ==>
      Meaning((Frame(opt, payload) + rest)[1..]) == (Subnegotiated(opt, payload), rest)
    ensures Meaning((Frame(opt, payload) + rest)[1..]).0.TooLongError? <==> |payload| > MAX_PAYLOAD
  {
    hide ReadPayload, Escaped;
    var bs := (Frame(opt, payload) + rest)[1..];
    assert bs[0] == SB && bs[1] == opt && bs[2..] == Escaped(payload) + [IAC, SE] + rest;
    PayloadRoundTrip(payload, rest);
  }

  // ---- GMCP and MSSP payloads ----

  /** The position of the first blank, or -1. */
  method IndexSpace(b: seq<Byte>) returns (i: int)
    ensures -1 <= i < |b|
    ensures i == -1 <==> BLANK !in b
    ensures i >= 0 ==> b[i] == BLANK && BLANK !in b[..i]
  {
    var k := 0;
    while k < |b|
      invariant k <= |b| && BLANK !in b[..k]
    {
      if b[k] == BLANK {
        return k;
      }
      k := k + 1;
    }
    assert b[..k] == b;
    i := -1;
  }

  const NULL_BODY: seq<Byte> := [0x6E, 0x75, 0x6C, 0x6C]

  /** The package name and body handed to the session, nothing for an empty payload. */
  method SplitGmcp(data: seq<Byte>) returns (handled: bool, pkg: seq<Byte>, body: seq<Byte>)
    ensures handled <==> data != []
    ensures handled && BLANK in data ==> data == GmcpPayload(pkg, body) && BLANK !in pkg
    ensures handled && BLANK !in data ==> pkg == data && body == NULL_BODY
  {
    if |data| == 0 {
      return false, [], [];
    }
    var sp := IndexSpace(data);
    if sp >= 0 {
      return true, data[..sp], data[sp + 1..];
    }
    return true, data, NULL_BODY;
  }

  /** There is one way to split a payload at its first blank. */
  lemma SplitIsUnique(a: seq<Byte>, x: seq<Byte>, b: seq<Byte>, y: seq<Byte>)
    requires BLANK !in a && BLANK !in b && GmcpPayload(a, x) == GmcpPayload(b, y)
    ensures a == b && x == y
  {
    assert GmcpPayload(a, x) == a + ([BLANK] + x) && GmcpPayload(b, y) == b + ([BLANK] + y);
    SameUpTo(a, [BLANK] + x, b, [BLANK] + y, BLANK);
    assert ([BLANK] + x)[1..] == x && ([BLANK] + y)[1..] == y;
  }

  /** Sends a package through the whole chain; it comes back as it was just when its name has no blank. */
  method GmcpRoundTrip(pkg: seq<Byte>, body: seq<Byte>, rest: seq<Byte>)
    returns (c: Command, pkg': seq<Byte>, body': seq<Byte>, left: seq<Byte>)
    ensures c.TooLongError? <==> |pkg| + 1 + |body| > MAX_PAYLOAD
    ensures !c.TooLongError? ==> c == Subnegotiated(OPT_GMCP, GmcpPayload(pkg, body)) && left == rest
    ensures !c.TooLongError? ==> ((pkg', body') == (pkg, body) <==> BLANK !in pkg)
  {
    hide ReadPayload, Escaped, Meaning, Frame;
    var frame := EncodeGmcpFrame(pkg, body);
    FrameStart(OPT_GMCP, GmcpPayload(pkg, body));
    FrameRoundTrip(OPT_GMCP, GmcpPayload(pkg, body), rest);
    var r := new Reader((frame + rest)[1..]);
    c := ReadIac(r);
    left, pkg', body' := r.pending, [], [];
    if c.Subnegotiated? {
      var handled;
      handled, pkg', body' := SplitGmcp(c.data);
      assert c.data[|pkg|] == BLANK;
      if BLANK !in pkg {
        SplitIsUnique(pkg, body, pkg', body');
      }
    }
  }

  lemma FrameStart(opt: Byte, payload: seq<Byte>)
    ensures |Frame(opt, payload)| >= 1
  {
  }

  /** No framing byte inside a name or a value. */
  ghost predicate Plain(v: Var) {
    MSSP_VAR !in v.name && MSSP_VAL !in v.name && MSSP_VAR !in v.value && MSSP_VAL !in v.value
  }

  ghost predicate AllPlain(vars: seq<Var>) {
    forall v | v in vars :: Plain(v)
  }

  /** Two fields up to the first byte of the same kind agree. */
  lemma SameUpTo(a: seq<Byte>, x: seq<Byte>, b: seq<Byte>, y: seq<Byte>, mark: Byte)
    requires mark !in a && mark !in b && a + x == b + y
    requires x != [] ==> x[0] == mark
    requires y != [] ==> y[0] == mark
    ensures a == b && x == y
  {
    NotShorter(a, x, b, y, mark);
    NotShorter(b, y, a, x, mark);
    assert (a + x)[..|a|] == a && (b + y)[..|b|] == b && (a + x)[|a|..] == x && (b + y)[|b|..] == y;
  }

  lemma NotShorter(a: seq<Byte>, x: seq<Byte>, b: seq<Byte>, y: seq<Byte>, mark: Byte)
    requires mark !in b && a + x == b + y && (x != [] ==> x[0] == mark)
    ensures |b| <= |a|
  {
    assert |a + x| == |b + y|;
    assert forall k | 0 <= k < |b| :: (b + y)[k] != mark;
    assert x != [] ==> (a + x)[|a|] == mark;
  }

  /** Variables without framing bytes are recovered from their block: no other list has the same payload. */
  lemma {:induction false} VarsRecoverable(a: seq<Var>, b: seq<Var>)
    requires AllPlain(a) && AllPlain(b) && VarsPayload(a) == VarsPayload(b)
    ensures a == b
  {
    hide Plain;
    if a != [] && b != [] {
      HeadsRecoverable(a[0], VarsPayload(a[1..]), b[0], VarsPayload(b[1..]));
      VarsRecoverable(a[1..], b[1..]);
      assert a == [a[0]] + a[1..] && b == [b[0]] + b[1..];
    }
  }

  lemma HeadsRecoverable(u: Var, ra: seq<Byte>, v: Var, rb: seq<Byte>)
    requires Plain(u) && Plain(v)
    requires [MSSP_VAR] + u.name + [MSSP_VAL] + u.value + ra == [MSSP_VAR] + v.name + [MSSP_VAL] + v.value + rb
    requires (ra != [] ==> ra[0] == MSSP_VAR) && (rb != [] ==> rb[0] == MSSP_VAR)
    ensures u == v && ra == rb
  {
    var x, y := [MSSP_VAL] + (u.value + ra), [MSSP_VAL] + (v.value + rb);
    assert [MSSP_VAR] + u.name + [MSSP_VAL] + u.value + ra == [MSSP_VAR] + (u.name + x);
    assert [MSSP_VAR] + v.name + [MSSP_VAL] + v.value + rb == [MSSP_VAR] + (v.name + y);
    SameTail(u.name + x, v.name + y, MSSP_VAR);
    SameUpTo(u.name, x, v.name, y, MSSP_VAL);
    SameTail(u.value + ra, v.value + rb, MSSP_VAL);
    SameUpTo(u.value, ra, v.value, rb, MSSP_VAR);
  }

  lemma SameTail(a: seq<Byte>, b: seq<Byte>, mark: Byte)
    requires [mark] + a == [mark] + b
    ensures a == b
  {
    assert ([mark] + a)[1..] == a && ([mark] + b)[1..] == b;
  }

  // ---- the bytes themselves ----

  /** In the payload each name stands behind a 1 and its value behind a 2, in the order of the list. */
  lemma VarsLayout(a: seq<Var>, v: Var, b: seq<Var>)
    ensures VarsPayload(a + [v] + b) == VarsPayload(a) + [1] + v.name + [2] + v.value + VarsPayload(b)
    ensures VarsPayload([]) == []
  {
    VarsPayloadAppend(a + [v], b);
    VarsPayloadAppend(a, [v]);
    OneVar(v);
    hide VarsPayload;
    var x, z := VarsPayload(a), VarsPayload(b);
    assert x + ([1] + v.name + [2] + v.value) == x + [1] + v.name + [2] + v.value;
  }

  lemma OneVar(v: Var)
    ensures VarsPayload([v]) == [1] + v.name + [2] + v.value && VarsPayload([]) == []
  {
    assert [v][1..] == [];
  }

  /** A frame is IAC SB, the option, the escaped payload, IAC SE, in the numbers of RFC 854. */
  lemma FrameBytes(payload: seq<Byte>)
    ensures Frame(OPT_MSSP, payload) == [255, 250, 70] + Escaped(payload) + [255, 240]
    ensures Frame(OPT_GMCP, payload) == [255, 250, 201] + Escaped(payload) + [255, 240]
  {
  }

  /** What a command byte after IAC means: 255 a literal byte, 251 to 254 an option, 240 to 249 no more than itself. */
  lemma CommandMeanings(b: Byte, opt: Byte, rest: seq<Byte>)
    ensures Meaning([255, opt] + rest) == (Literal, [opt] + rest)
    ensures 251 <= b <= 254 ==> Meaning([b, opt] + rest) == (Negotiated(b, opt), rest)
    ensures b < 250 ==> Meaning([b] + rest) == (Other(b), rest)
    ensures Meaning([]) == (EofError, [])
  {
    assert ([255, opt] + rest)[1..] == [opt] + rest && ([b, opt] + rest)[2..] == rest && ([b] + rest)[1..] == rest;
  }
}
