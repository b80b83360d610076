/**
 UTF-8 as the standard decoder of the original sees it: sections 3 and 4 of
 RFC 3629. A byte string that is not well formed decodes to the replacement
 character one byte at a time, from the front as from the back.

 The editor holds bytes and thinks in runes, so everything above rests on two
 facts proved here: decoding from either end finds the rune that was encoded,
 and well-formed strings stay well formed when they are joined.
 */
module Utf8 {

  type Byte = b: int | 0 <= b < 256

  /** A Unicode scalar value: every code point except the surrogates. */
  type Rune = r: int | 0 <= r < 0xD800 || 0xE000 <= r <= 0x10FFFF

  const RUNE_ERROR: Rune := 0xFFFD

  predicate IsCont(b: Byte) {
    0x80 <= b <= 0xBF
  }

  /** The sequence length a lead byte announces, 0 for a byte that cannot lead. */
  function ExpectedLen(lead: Byte): nat {
    if lead < 0x80 then 1
    else if lead < 0xC2 then 0
    else if lead < 0xE0 then 2
    else if lead < 0xF0 then 3
    else if lead <= 0xF4 then 4
    else 0
  }

  function Encode(r: Rune): (bs: seq<Byte>)
    ensures 1 <= |bs| <= 4
  {
    if r < 0x80 then [r]
    else if r < 0x800 then [0xC0 + r / 64, 0x80 + r % 64]
    else if r < 0x10000 then [0xE0 + r / 4096, 0x80 + r / 64 % 64, 0x80 + r % 64]
    else [0xF0 + r / 262144, 0x80 + r / 4096 % 64, 0x80 + r / 64 % 64, 0x80 + r % 64]
  }

  /** The second byte is confined further after E0, ED, F0 and F4. */
  predicate SecondOk(lead: Byte, b: Byte) {
    (if lead == 0xE0 then 0xA0 else if lead == 0xF0 then 0x90 else 0x80) <= b
    && b <= (if lead == 0xED then 0x9F else if lead == 0xF4 then 0x8F else 0xBF)
  }

  predicate TailOk(bs: seq<Byte>, n: nat)
    requires n <= |bs|
  {
    n >= 2 ==>
      && SecondOk(bs[0], bs[1])
      && (n >= 3 ==> IsCont(bs[2]))
      && (n >= 4 ==> IsCont(bs[3]))
  }

  /** Decodes the first rune: (RUNE_ERROR, 1) for anything malformed, (RUNE_ERROR, 0) for no input. */
  function Decode(bs: seq<Byte>): (res: (Rune, nat))
    ensures res.1 <= |bs| && res.1 <= 4
    ensures bs != [] ==> 1 <= res.1
    ensures bs != [] && res.1 != ExpectedLen(bs[0]) ==> res == (RUNE_ERROR, 1)
  {
    if bs == [] then (RUNE_ERROR, 0)
    else
      var n := ExpectedLen(bs[0]);
      if n == 0 || |bs| < n || !TailOk(bs, n) then (RUNE_ERROR, 1)
      else if n == 1 then (bs[0], 1)
      else if n == 2 then (Payload2(bs[0], bs[1]), 2)
      else if n == 3 then (Payload3(bs[0], bs[1], bs[2]), 3)
      else (Payload4(bs[0], bs[1], bs[2], bs[3]), 4)
  }

  // The payload bits of a sequence of two, three and four bytes.

  function Payload2(b0: int, b1: int): int {
    (b0 - 0xC0) * 64 + (b1 - 0x80)
  }

  function Payload3(b0: int, b1: int, b2: int): int {
    (b0 - 0xE0) * 4096 + (b1 - 0x80) * 64 + (b2 - 0x80)
  }

  function Payload4(b0: int, b1: int, b2: int, b3: int): int {
    (b0 - 0xF0) * 262144 + (b1 - 0x80) * 4096 + (b2 - 0x80) * 64 + (b3 - 0x80)
  }

  /** Steps back from `start` over continuation bytes, never below `lim`. */
  function LastStart(bs: seq<Byte>, start: nat, lim: nat): (s: nat)
    requires lim <= start < |bs|
    ensures lim <= s <= start
  {
    if start == lim || !IsCont(bs[start]) then start else LastStart(bs, start - 1, lim)
  }

  /** Decodes the last rune of bs. */
  function DecodeLast(bs: seq<Byte>): (res: (Rune, nat))
    ensures res.1 <= |bs| && res.1 <= 4
    ensures bs != [] ==> 1 <= res.1
  {
    var n := |bs|;
    if n == 0 then (RUNE_ERROR, 0)
    else if bs[n - 1] < 0x80 then (bs[n - 1], 1)
    else
      var lim := if n < 4 then 0 else n - 4;
      var start := if n == 1 then 0 else LastStart(bs, n - 2, lim);
      var (r, size) := Decode(bs[start..]);
      if start + size != n then (RUNE_ERROR, 1) else (r, size)
  }

  function EncodeAll(rs: seq<Rune>): seq<Byte> {
    if rs == [] then [] else Encode(rs[0]) + EncodeAll(rs[1..])
  }

  /** The runes of any byte string; each malformed byte counts as one RUNE_ERROR. */
  function DecodeAll(bs: seq<Byte>): seq<Rune> {
    if bs == [] then []
    else
      var (r, n) := Decode(bs);
      [r] + DecodeAll(bs[n..])
  }

  ghost predicate IsUtf8(bs: seq<Byte>) {
    EncodeAll(DecodeAll(bs)) == bs
  }

  /** Bytes that never occur in well-formed UTF-8. */
  predicate NeverInUtf8(b: Byte) {
    b == 0xC0 || b == 0xC1 || 0xF5 <= b
  }

  // ---- one rune ----

  lemma EncodeShape(r: Rune)
    ensures var bs := Encode(r);
      && ExpectedLen(bs[0]) == |bs|
      && !IsCont(bs[0])
      && (forall i | 1 <= i < |bs| :: IsCont(bs[i]))
      && (forall b | b in bs :: !NeverInUtf8(b))
      && (r >= 0x80 ==> forall b | b in bs :: b >= 0x80)
  {
  }

  lemma Split64(r: nat)
    ensures r == r / 64 * 64 + r % 64
    ensures r / 4096 == r / 64 / 64
    ensures r / 262144 == r / 4096 / 64
  {
  }

  lemma DecodeEncode(r: Rune, rest: seq<Byte>)
    ensures Decode(Encode(r) + rest) == (r, |Encode(r)|)
  {
    EncodeShape(r);
    Split64(r);
    Split64(r / 64);
    Split64(r / 4096);
    var e := Encode(r);
    var bs := e + rest;
    assert forall i | 0 <= i < |e| :: bs[i] == e[i];
    assert TailOk(bs, |e|);
  }

  /** Scanning back from a byte over the continuation bytes of a rune finds its lead byte. */
  lemma {:induction false} LastStartAt(bs: seq<Byte>, p: nat, start: nat, lim: nat)
    requires lim <= p <= start < |bs| && !IsCont(bs[p])
    requires forall i | p < i <= start :: IsCont(bs[i])
    ensures LastStart(bs, start, lim) == p
    decreases start
  {
    if start > p {
      LastStartAt(bs, p, start - 1, lim);
    }
  }

  lemma DecodeLastEncode(before: seq<Byte>, r: Rune)
    ensures DecodeLast(before + Encode(r)) == (r, |Encode(r)|)
  {
    hide Decode, Encode;
    EncodeShape(r);
    var e := Encode(r);
    var bs := before + e;
    var n, p := |bs|, |before|;
    assert bs[p..] == e + [];
    DecodeEncode(r, []);
    assert bs[n - 1] == e[|e| - 1] && e[|e| - 1] in e;
    if bs[n - 1] >= 0x80 {
      assert |e| > 1 by { EncodeLong(r); }
      LastStartAt(bs, p, n - 2, if n < 4 then 0 else n - 4);
    } else {
      EncodeLong(r);
    }
  }

  lemma EncodeLong(r: Rune)
    ensures if r < 0x80 then Encode(r) == [r] else |Encode(r)| >= 2
  {
  }

  // ---- strings of runes ----

  lemma {:induction false} EncodeAllAppend(a: seq<Rune>, b: seq<Rune>)
    ensures EncodeAll(a + b) == EncodeAll(a) + EncodeAll(b)
  {
    if a == [] {
      assert a + b == b;
    } else {
      assert (a + b)[1..] == a[1..] + b;
      EncodeAllAppend(a[1..], b);
    }
  }

  lemma EncodeAllOne(r: Rune)
    ensures EncodeAll([r]) == Encode(r)
  {
    assert [r][1..] == [];
  }

  /** Reading back what was written: decoding inverts encoding. */
  lemma {:induction false} DecodeAllEncodeAll(rs: seq<Rune>)
    ensures DecodeAll(EncodeAll(rs)) == rs
    ensures IsUtf8(EncodeAll(rs))
  {
    if rs != [] {
      DecodeEncode(rs[0], EncodeAll(rs[1..]));
      DecodeAllEncodeAll(rs[1..]);
      var e := Encode(rs[0]);
      assert (e + EncodeAll(rs[1..]))[|e|..] == EncodeAll(rs[1..]);
    }
  }

  lemma {:induction false} EncodeAllBytes(rs: seq<Rune>)
    ensures forall b | b in EncodeAll(rs) :: !NeverInUtf8(b)
  {
    if rs != [] {
      EncodeShape(rs[0]);
      EncodeAllBytes(rs[1..]);
    }
  }

  lemma Utf8Append(a: seq<Byte>, b: seq<Byte>)
    requires IsUtf8(a) && IsUtf8(b)
    ensures IsUtf8(a + b)
    ensures DecodeAll(a + b) == DecodeAll(a) + DecodeAll(b)
  {
    EncodeAllAppend(DecodeAll(a), DecodeAll(b));
    DecodeAllEncodeAll(DecodeAll(a) + DecodeAll(b));
  }

  lemma Parts(a: nat, b: nat)
    requires b < 64
    ensures (a * 64 + b) / 64 == a && (a * 64 + b) % 64 == b
  {
  }

  lemma Sound2(b0: Byte, b1: Byte)
    requires 0xC2 <= b0 < 0xE0 && IsCont(b1)
    ensures Encode(Payload2(b0, b1)) == [b0, b1]
  {
    Parts(b0 - 0xC0, b1 - 0x80);
  }

  lemma Sound3(b0: Byte, b1: Byte, b2: Byte)
    requires 0xE0 <= b0 < 0xF0 && IsCont(b1) && IsCont(b2) && SecondOk(b0, b1)
    ensures var r := Payload3(b0, b1, b2); (0x800 <= r < 0xD800 || 0xE000 <= r < 0x10000) && Encode(r) == [b0, b1, b2]
  {
    var r, high := Payload3(b0, b1, b2), (b0 - 0xE0) * 64 + (b1 - 0x80);
    assert r == high * 64 + (b2 - 0x80);
    Parts(high, b2 - 0x80);
    Parts(b0 - 0xE0, b1 - 0x80);
    Split64(r);
  }

  lemma Sound4(b0: Byte, b1: Byte, b2: Byte, b3: Byte)
    requires 0xF0 <= b0 <= 0xF4 && IsCont(b1) && IsCont(b2) && IsCont(b3) && SecondOk(b0, b1)
    ensures var r := Payload4(b0, b1, b2, b3); 0x10000 <= r <= 0x10FFFF && Encode(r) == [b0, b1, b2, b3]
  {
    var r, top := Payload4(b0, b1, b2, b3), (b0 - 0xF0) * 64 + (b1 - 0x80);
    var high := top * 64 + (b2 - 0x80);
    assert r == high * 64 + (b3 - 0x80);
    Parts(high, b3 - 0x80);
    Parts(top, b2 - 0x80);
    Parts(b0 - 0xF0, b1 - 0x80);
    Split64(r);
  }

  /** And only what encodes a rune decodes to one: anything else is one malformed byte. */
  lemma DecodeSound(bs: seq<Byte>)
    requires bs != []
    ensures var (r, n) := Decode(bs); (r, n) == (RUNE_ERROR, 1) || Encode(r) == bs[..n]
  {
    hide Encode, Payload2, Payload3, Payload4;
    var n := ExpectedLen(bs[0]);
    if n != 0 && n <= |bs| && TailOk(bs, n) {
      if n == 1 {
        assert bs[..1] == [bs[0]];
        EncodeLong(bs[0]);
      } else if n == 2 {
        assert bs[..2] == [bs[0], bs[1]];
        Sound2(bs[0], bs[1]);
      } else if n == 3 {
        assert bs[..3] == [bs[0], bs[1], bs[2]];
        Sound3(bs[0], bs[1], bs[2]);
      } else {
        assert bs[..4] == [bs[0], bs[1], bs[2], bs[3]];
        Sound4(bs[0], bs[1], bs[2], bs[3]);
      }
    }
  }
}
