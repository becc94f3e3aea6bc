/**
  The UTF-8 encoding form of RFC 3629, section 3, and the two decoding
  operations of Go's `unicode/utf8` package that the classifier calls:
  `DecodeRune` and `Valid`.

  `EncodeRune` is the table of section 3 (how a scalar value is laid out in one
  to four octets). `DecodeFirst` follows the well-formed byte ranges that the
  same section imposes (no overlong forms, no surrogates, nothing above
  U+10FFFF, no truncated sequences). The lemmas prove the two agree: a byte
  sequence decodes if and only if it is the encoding of a sequence of scalar
  values, and then it decodes to exactly those values.
*/
module Utf8 {
  import opened Prelude

  /** Go's `utf8.RuneError`, U+FFFD, returned by `DecodeRune` on bad input. */
  const RuneError: int := 0xFFFD

  /** A Unicode scalar value: a code point up to U+10FFFF that is not a surrogate. */
  predicate IsScalarValue(cp: int) {
    0 <= cp <= 0x10FFFF && !(0xD800 <= cp <= 0xDFFF)
  }

  predicate AllScalar(cps: seq<int>) {
    forall i | 0 <= i < |cps| :: IsScalarValue(cps[i])
  }

  /** A continuation octet, 10xxxxxx. */
  predicate IsTail(x: byte) {
    0x80 <= x <= 0xBF
  }

  /** The number of octets in the UTF-8 encoding of a scalar value. */
  function EncodedLength(cp: int): nat {
    if cp < 0x80 then 1 else if cp < 0x800 then 2 else if cp < 0x10000 then 3 else 4
  }

  /**
    The octets of `cp`, laid out as in the table of RFC 3629, section 3:
    0xxxxxxx / 110xxxxx 10xxxxxx / 1110xxxx 10xxxxxx 10xxxxxx /
    11110xxx 10xxxxxx 10xxxxxx 10xxxxxx.
  */
  function EncodeRune(cp: int): (r: seq<byte>)
    requires IsScalarValue(cp)
    ensures |r| == EncodedLength(cp)
    ensures !IsTail(r[0]) && (|r| > 1 ==> IsTail(r[1])) && (|r| > 2 ==> IsTail(r[2])) && (|r| > 3 ==> IsTail(r[3]))
  {
    if cp < 0x80 then
      [cp]
    else if cp < 0x800 then
      [0xC0 + cp / 0x40, 0x80 + cp % 0x40]
    else if cp < 0x10000 then
      [0xE0 + cp / 0x1000, 0x80 + (cp / 0x40) % 0x40, 0x80 + cp % 0x40]
    else
      [0xF0 + cp / 0x40000, 0x80 + (cp / 0x1000) % 0x40, 0x80 + (cp / 0x40) % 0x40, 0x80 + cp % 0x40]
  }

  /** The concatenated encodings of a sequence of scalar values. */
  function EncodeAll(cps: seq<int>): (r: seq<byte>)
    requires AllScalar(cps)
    ensures |cps| <= |r| <= 4 * |cps|
  {
    if cps == [] then [] else EncodeRune(cps[0]) + EncodeAll(cps[1..])
  }

  /** One decoded code point and the number of octets it took. */
  datatype Rune = Rune(cp: int, size: nat)

  /**
    The length announced by a leading octet, or 0 when the octet can never
    start a well-formed sequence (a continuation octet, C0, C1, F5..FF).
  */
  function SequenceLength(lead: byte): nat {
    if lead < 0x80 then 1
    else if lead < 0xC2 then 0
    else if lead < 0xE0 then 2
    else if lead < 0xF0 then 3
    else if lead < 0xF5 then 4
    else 0
  }

  /**
    Decodes the well-formed sequence at the start of `b`, or None when `b` is
    empty or does not start with one. The second octet's range depends on the
    first, which excludes the overlong forms (E0 80..9F, F0 80..8F), the
    surrogates (ED A0..BF) and the values above U+10FFFF (F4 90..BF).
  */
  function DecodeFirst(b: seq<byte>): (r: Option<Rune>)
    ensures r.Some? ==> |b| > 0 && r.value.size == SequenceLength(b[0]) <= |b|
    ensures r.Some? ==> IsScalarValue(r.value.cp)
    ensures r.Some? ==>
      && !IsTail(b[0]) && (r.value.size > 1 ==> IsTail(b[1]))
      && (r.value.size > 2 ==> IsTail(b[2])) && (r.value.size > 3 ==> IsTail(b[3]))
    ensures |b| > 0 && |b| < SequenceLength(b[0]) ==> r.None?
  {
    if |b| == 0 then None
    else
      var b0: int := b[0];
      if b0 < 0x80 then
        Some(Rune(b0, 1))
      else if b0 < 0xC2 then
        None
      else if b0 < 0xE0 then
        if |b| >= 2 && IsTail(b[1]) then
          Some(Rune((b0 - 0xC0) * 0x40 + (b[1] as int - 0x80), 2))
        else None
      else if b0 < 0xF0 then
        var lo := if b0 == 0xE0 then 0xA0 else 0x80;
        var hi := if b0 == 0xED then 0x9F else 0xBF;
        if |b| >= 3 && lo <= b[1] <= hi && IsTail(b[2]) then
          Some(Rune((b0 - 0xE0) * 0x1000 + (b[1] as int - 0x80) * 0x40 + (b[2] as int - 0x80), 3))
        else None
      else if b0 < 0xF5 then
        var lo := if b0 == 0xF0 then 0x90 else 0x80;
        var hi := if b0 == 0xF4 then 0x8F else 0xBF;
        if |b| >= 4 && lo <= b[1] <= hi && IsTail(b[2]) && IsTail(b[3]) then
          Some(Rune((b0 - 0xF0) * 0x40000 + (b[1] as int - 0x80) * 0x1000 + (b[2] as int - 0x80) * 0x40 + (b[3] as int - 0x80), 4))
        else None
      else None
  }

  /**
    Go's `utf8.DecodeRune`: the first code point of `p` and its width;
    (RuneError, 1) when `p` does not start with a well-formed sequence and
    (RuneError, 0) when `p` is empty.
  */
  function DecodeRune(p: seq<byte>): (r: Rune)
    ensures p == [] ==> r == Rune(RuneError, 0)
    ensures p != [] ==> 1 <= r.size <= |p|
    ensures DecodeFirst(p).Some? ==> IsScalarValue(r.cp) && p[..r.size] == EncodeRune(r.cp)
  {
    match DecodeFirst(p)
    case Some(rn) =>
      EncodingOfDecoded(p);
      rn
    case None => Rune(RuneError, if p == [] then 0 else 1)
  }

  /** Decodes all of `b`, or None when `b` is not well-formed UTF-8. */
  function DecodeAll(b: seq<byte>): (r: Option<seq<int>>)
    ensures r.Some? ==> |r.value| <= |b| && AllScalar(r.value)
    decreases |b|
  {
    if b == [] then Some([])
    else
      match DecodeFirst(b)
      case None => None
      case Some(rn) =>
        match DecodeAll(b[rn.size..])
        case None => None
        case Some(rest) => Some([rn.cp] + rest)
  }

  /** Go's `utf8.Valid`: `b` consists entirely of well-formed UTF-8 sequences. */
  predicate Valid(b: seq<byte>) {
    DecodeAll(b).Some?
  }

  // ----- The decoder inverts the encoder -----

  lemma DivMod64(hi: int, lo: int)
    requires 0 <= lo < 0x40
    ensures (hi * 0x40 + lo) / 0x40 == hi && (hi * 0x40 + lo) % 0x40 == lo
  {
  }

  /** Decoding the encoding of a scalar value gives it back, whatever follows it. */
  lemma DecodeOfEncoded(cp: int, rest: seq<byte>)
    requires IsScalarValue(cp)
    ensures DecodeFirst(EncodeRune(cp) + rest) == Some(Rune(cp, EncodedLength(cp)))
  {
    if cp < 0x80 {
    } else if cp < 0x800 {
      DecodeOfEncoded2(cp, rest);
    } else if cp < 0x10000 {
      DecodeOfEncoded3(cp, rest);
    } else {
      DecodeOfEncoded4(cp, rest);
    }
  }

  lemma DecodeOfEncoded2(cp: int, rest: seq<byte>)
    requires 0x80 <= cp < 0x800
    ensures DecodeFirst(EncodeRune(cp) + rest) == Some(Rune(cp, 2))
  {
    var b := EncodeRune(cp) + rest;
    assert b[0] == 0xC0 + cp / 0x40 && b[1] == 0x80 + cp % 0x40;
  }

  lemma DecodeOfEncoded3(cp: int, rest: seq<byte>)
    requires IsScalarValue(cp) && 0x800 <= cp < 0x10000
    ensures DecodeFirst(EncodeRune(cp) + rest) == Some(Rune(cp, 3))
  {
    var b := EncodeRune(cp) + rest;
    var q := cp / 0x40;
    assert cp == q * 0x40 + cp % 0x40;
    assert q / 0x40 == cp / 0x1000;
    assert q == (q / 0x40) * 0x40 + q % 0x40;
    assert b[0] == 0xE0 + q / 0x40 && b[1] == 0x80 + q % 0x40 && b[2] == 0x80 + cp % 0x40;
  }

  lemma DecodeOfEncoded4(cp: int, rest: seq<byte>)
    requires 0x10000 <= cp <= 0x10FFFF
    ensures DecodeFirst(EncodeRune(cp) + rest) == Some(Rune(cp, 4))
  {
    var b := EncodeRune(cp) + rest;
    var q := cp / 0x40;
    var q2 := q / 0x40;
    assert cp == q * 0x40 + cp % 0x40;
    assert q == q2 * 0x40 + q % 0x40;
    assert q2 == cp / 0x1000;
    assert q2 / 0x40 == cp / 0x40000;
    assert q2 == (q2 / 0x40) * 0x40 + q2 % 0x40;
    assert b[0] == 0xF0 + q2 / 0x40 && b[1] == 0x80 + q2 % 0x40;
    assert b[2] == 0x80 + q % 0x40 && b[3] == 0x80 + cp % 0x40;
  }

  /** What `DecodeFirst` accepts is exactly the encoding of the value it returns. */
  lemma EncodingOfDecoded(b: seq<byte>)
    requires DecodeFirst(b).Some?
    ensures var rn := DecodeFirst(b).value;
      EncodedLength(rn.cp) == rn.size && b[..rn.size] == EncodeRune(rn.cp)
  {
    if b[0] < 0x80 {
      assert b[..1] == [b[0]];
    } else if b[0] < 0xE0 {
      EncodingOfDecoded2(b);
    } else if b[0] < 0xF0 {
      EncodingOfDecoded3(b);
    } else {
      EncodingOfDecoded4(b);
    }
  }

  lemma EncodingOfDecoded2(b: seq<byte>)
    requires DecodeFirst(b).Some? && 0xC0 <= b[0] < 0xE0
    ensures var rn := DecodeFirst(b).value;
      EncodedLength(rn.cp) == 2 && b[..2] == EncodeRune(rn.cp)
  {
    var b0: int, b1: int := b[0], b[1];
    var c := DecodeFirst(b).value.cp;
    DivMod64(b0 - 0xC0, b1 - 0x80);
    assert EncodeRune(c) == [b[0], b[1]];
  }

  lemma EncodingOfDecoded3(b: seq<byte>)
    requires DecodeFirst(b).Some? && 0xE0 <= b[0] < 0xF0
    ensures var rn := DecodeFirst(b).value;
      EncodedLength(rn.cp) == 3 && b[..3] == EncodeRune(rn.cp)
  {
    var b0: int, b1: int, b2: int := b[0], b[1], b[2];
    var c := DecodeFirst(b).value.cp;
    var q := (b0 - 0xE0) * 0x40 + (b1 - 0x80);
    assert c == q * 0x40 + (b2 - 0x80);
    DivMod64(q, b2 - 0x80);
    DivMod64(b0 - 0xE0, b1 - 0x80);
    assert c / 0x1000 == q / 0x40 by {
      assert c / 0x1000 == (c / 0x40) / 0x40;
    }
    assert EncodeRune(c) == [b[0], b[1], b[2]];
  }

  lemma EncodingOfDecoded4(b: seq<byte>)
    requires DecodeFirst(b).Some? && 0xF0 <= b[0]
    ensures var rn := DecodeFirst(b).value;
      EncodedLength(rn.cp) == 4 && b[..4] == EncodeRune(rn.cp)
  {
    var b0: int, b1: int, b2: int, b3: int := b[0], b[1], b[2], b[3];
    var c := DecodeFirst(b).value.cp;
    var q2 := (b0 - 0xF0) * 0x40 + (b1 - 0x80);
    var q := q2 * 0x40 + (b2 - 0x80);
    assert c == q * 0x40 + (b3 - 0x80);
    DivMod64(q, b3 - 0x80);
    DivMod64(q2, b2 - 0x80);
    DivMod64(b0 - 0xF0, b1 - 0x80);
    assert c / 0x1000 == q2 by {
      assert c / 0x1000 == (c / 0x40) / 0x40;
    }
    assert c / 0x40000 == q2 / 0x40 by {
      assert c / 0x40000 == (c / 0x1000) / 0x40;
    }
    assert EncodeRune(c) == [b[0], b[1], b[2], b[3]];
  }

  lemma {:induction false} EncodeAllAppend(cps: seq<int>, cp: int)
    requires AllScalar(cps) && IsScalarValue(cp)
    ensures AllScalar(cps + [cp]) && EncodeAll(cps + [cp]) == EncodeAll(cps) + EncodeRune(cp)
  {
    if cps == [] {
      assert [] + [cp] == [cp];
    } else {
      assert (cps + [cp])[1..] == cps[1..] + [cp];
      EncodeAllAppend(cps[1..], cp);
    }
  }

  /** One step of decoding a well-formed buffer: its first sequence, then the rest. */
  lemma DecodeAllStep(b: seq<byte>)
    requires Valid(b) && b != []
    ensures DecodeFirst(b).Some?
    ensures var rn := DecodeFirst(b).value;
      Valid(b[rn.size..]) && DecodeAll(b).value == [rn.cp] + DecodeAll(b[rn.size..]).value
  {
  }

  /** `DecodeFirst` looks at no octet beyond the sequence it accepts. */
  lemma DecodeFirstLocal(a: seq<byte>, c: seq<byte>)
    requires DecodeFirst(a).Some?
    requires DecodeFirst(a).value.size <= |c| && c[..DecodeFirst(a).value.size] == a[..DecodeFirst(a).value.size]
    ensures DecodeFirst(c) == DecodeFirst(a)
  {
    var n := DecodeFirst(a).value.size;
    assert forall i | 0 <= i < n :: c[i] == c[..n][i] == a[..n][i] == a[i];
  }

  // ----- Whole buffers -----

  /** Decoding the encoding of scalar values gives them back. */
  lemma {:induction false} DecodeAllOfEncodeAll(cps: seq<int>)
    requires AllScalar(cps)
    ensures DecodeAll(EncodeAll(cps)) == Some(cps)
  {
    if cps != [] {
      var e := EncodeRune(cps[0]);
      var rest := EncodeAll(cps[1..]);
      DecodeOfEncoded(cps[0], rest);
      assert (e + rest)[|e|..] == rest;
      DecodeAllOfEncodeAll(cps[1..]);
      assert [cps[0]] + cps[1..] == cps;
    }
  }

  /** A buffer that decodes is the encoding of what it decodes to. */
  lemma {:induction false} EncodeAllOfDecodeAll(b: seq<byte>)
    requires Valid(b)
    ensures EncodeAll(DecodeAll(b).value) == b
    decreases |b|
  {
    if b != [] {
      DecodeAllStep(b);
      EncodingOfDecoded(b);
      var rn := DecodeFirst(b).value;
      EncodeAllOfDecodeAll(b[rn.size..]);
      EncodeAllCons(b, rn.size, rn.cp, DecodeAll(b[rn.size..]).value);
    }
  }

  /** A buffer made of the encoding of one value and the encoding of others is the encoding of all of them. */
  lemma EncodeAllCons(b: seq<byte>, k: nat, cp: int, rest: seq<int>)
    requires k <= |b| && IsScalarValue(cp) && AllScalar(rest)
    requires b[..k] == EncodeRune(cp) && b[k..] == EncodeAll(rest)
    ensures AllScalar([cp] + rest) && EncodeAll([cp] + rest) == b
  {
    assert ([cp] + rest)[1..] == rest;
    assert b == b[..k] + b[k..];
  }

  /**
    `utf8.Valid` accepts exactly the encodings of sequences of scalar values:
    overlong forms, surrogates, values above U+10FFFF and truncated sequences
    are all rejected.
  */
  lemma ValidIffEncoding(b: seq<byte>)
    ensures Valid(b) <==> exists cps :: AllScalar(cps) && EncodeAll(cps) == b
  {
    if Valid(b) {
      EncodeAllOfDecodeAll(b);
      assert AllScalar(DecodeAll(b).value) && EncodeAll(DecodeAll(b).value) == b;
    }
    if cps :| AllScalar(cps) && EncodeAll(cps) == b {
      DecodeAllOfEncodeAll(cps);
    }
  }

  /** Decoding distributes over the concatenation of two well-formed buffers. */
  lemma DecodeAllAppend(a: seq<byte>, b: seq<byte>)
    requires Valid(a) && Valid(b)
    ensures DecodeAll(a + b) == Some(DecodeAll(a).value + DecodeAll(b).value)
  {
    var xs, ys := DecodeAll(a).value, DecodeAll(b).value;
    EncodeAllOfDecodeAll(a);
    EncodeAllOfDecodeAll(b);
    EncodeAllConcat(xs, ys);
    DecodeAllOfEncodeAll(xs + ys);
  }

  /** Encoding distributes over concatenation. */
  lemma {:induction false} EncodeAllConcat(xs: seq<int>, ys: seq<int>)
    requires AllScalar(xs) && AllScalar(ys)
    ensures AllScalar(xs + ys) && EncodeAll(xs + ys) == EncodeAll(xs) + EncodeAll(ys)
  {
    var zs := xs + ys;
    assert AllScalar(zs) by {
      forall i | 0 <= i < |zs| ensures IsScalarValue(zs[i]) {
        if i < |xs| { assert zs[i] == xs[i]; } else { assert zs[i] == ys[i - |xs|]; }
      }
    }
    if xs == [] {
      assert zs == ys;
    } else {
      assert zs[0] == xs[0] && zs[1..] == xs[1..] + ys;
      EncodeAllConcat(xs[1..], ys);
      assert EncodeAll(zs) == EncodeRune(xs[0]) + EncodeAll(xs[1..] + ys);
    }
  }

  /**
    Cutting a well-formed buffer after `k` octets leaves a well-formed buffer
    exactly when the cut falls between two sequences (the next octet is not a
    continuation octet); both sides are then well-formed and decode to the two
    parts of the whole decoding.
  */
  lemma ValidCut(b: seq<byte>, k: nat)
    requires Valid(b) && k <= |b|
    ensures Valid(b[..k]) <==> (k == |b| || !IsTail(b[k]))
    ensures Valid(b[..k]) ==>
      && Valid(b[k..])
      && DecodeAll(b).value == DecodeAll(b[..k]).value + DecodeAll(b[k..]).value
  {
    CutBoundary(b, k);
    if Valid(b[..k]) {
      CutDecodes(b, k);
    }
  }

  /** When both sides of a cut are well-formed, their decodings make up the decoding of the whole. */
  lemma CutDecodes(b: seq<byte>, k: nat)
    requires k <= |b| && Valid(b[..k]) && Valid(b[k..])
    ensures Valid(b) && DecodeAll(b).value == DecodeAll(b[..k]).value + DecodeAll(b[k..]).value
  {
    DecodeAllAppend(b[..k], b[k..]);
    assert b[..k] + b[k..] == b;
  }

  /** Where a well-formed buffer may be cut, and that the part after a valid cut is well-formed too. */
  lemma {:induction false} CutBoundary(b: seq<byte>, k: nat)
    requires Valid(b) && k <= |b|
    ensures Valid(b[..k]) <==> (k == |b| || !IsTail(b[k]))
    ensures Valid(b[..k]) ==> Valid(b[k..])
    decreases |b|
  {
    if k == 0 {
      assert b[..k] == [] && b[k..] == b;
      if b != [] {
        DecodeAllStep(b);
      }
    } else {
      DecodeAllStep(b);
      var n := DecodeFirst(b).value.size;
      if k < n {
        CutInsideFirst(b, k);
      } else {
        CutBoundary(b[n..], k - n);
        CutAfterFirst(b, k);
      }
    }
  }

  /** A cut inside the first sequence leaves a truncated sequence, and the next octet is a continuation octet. */
  lemma CutInsideFirst(b: seq<byte>, k: nat)
    requires DecodeFirst(b).Some? && 0 < k < DecodeFirst(b).value.size
    ensures !Valid(b[..k]) && IsTail(b[k])
  {
    assert b[..k][0] == b[0];
  }

  /**
    A cut after the first sequence: where the rest of the buffer may be cut
    carries over to the whole buffer.
  */
  lemma CutAfterFirst(b: seq<byte>, k: nat)
    requires DecodeFirst(b).Some? && DecodeFirst(b).value.size <= k <= |b|
    requires var n := DecodeFirst(b).value.size;
      && (Valid(b[n..][..k - n]) <==> (k - n == |b[n..]| || !IsTail(b[n..][k - n])))
      && (Valid(b[n..][..k - n]) ==> Valid(b[n..][k - n..]))
    ensures Valid(b[..k]) <==> (k == |b| || !IsTail(b[k]))
    ensures Valid(b[..k]) ==> Valid(b[k..])
  {
    var rn := DecodeFirst(b).value;
    var n := rn.size;
    var p, t := b[..k], b[n..];
    DecodeFirstLocal(b, p);
    assert p[n..] == t[..k - n];
    assert t[k - n..] == b[k..];
    DecodeAllAfterFirst(p, rn);
    if k < |b| {
      assert b[k] == t[k - n];
    }
  }

  /** A buffer that starts with a well-formed sequence is valid exactly when the rest is, and then decodes to its value followed by the rest's decoding. */
  lemma DecodeAllAfterFirst(c: seq<byte>, rn: Rune)
    requires DecodeFirst(c) == Some(rn)
    ensures Valid(c) <==> Valid(c[rn.size..])
    ensures Valid(c) ==> DecodeAll(c).value == [rn.cp] + DecodeAll(c[rn.size..]).value
  {
  }
}
