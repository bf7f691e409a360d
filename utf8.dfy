/** `bytes.decode('utf-8')` in Python's strict mode, and the encoding it inverts.
    A Dafny `char` is a Unicode scalar value, so surrogates cannot occur. */
module Utf8 {
  import opened Common

  predicate IsContinuation(b: Byte) { 0x80 <= b <= 0xBF }

  /** A scalar value that can be a `char`. */
  predicate IsScalar(n: int) { 0 <= n < 0xD800 || 0xE000 <= n <= 0x10FFFF }

  datatype Step = Step(c: char, width: nat)

  /** The character encoded at the front of `b`, and how many bytes it takes,
      when those bytes form a well-formed UTF-8 sequence (Unicode's table of
      well-formed byte sequences, which is what Python's decoder accepts). */
  function DecodeStep(b: Bytes): (r: Option<Step>)
    ensures r.Some? ==> 1 <= r.value.width <= |b| && r.value.width <= 4
  {
    if b == [] then None
    else if b[0] < 0x80 then Some(Step(b[0] as char, 1))
    else if 0xC2 <= b[0] <= 0xDF then
      if |b| >= 2 && IsContinuation(b[1]) then
        Some(Step(((b[0] as int - 0xC0) * 64 + (b[1] as int - 0x80)) as char, 2))
      else None
    else if 0xE0 <= b[0] <= 0xEF then
      if |b| >= 3 && IsContinuation(b[1]) && IsContinuation(b[2])
         && (b[0] != 0xE0 || b[1] >= 0xA0) && (b[0] != 0xED || b[1] <= 0x9F) then
        var n := (b[0] as int - 0xE0) * 4096 + (b[1] as int - 0x80) * 64 + (b[2] as int - 0x80);
        assert IsScalar(n);
        Some(Step(n as char, 3))
      else None
    else if 0xF0 <= b[0] <= 0xF4 then
      if |b| >= 4 && IsContinuation(b[1]) && IsContinuation(b[2]) && IsContinuation(b[3])
         && (b[0] != 0xF0 || b[1] >= 0x90) && (b[0] != 0xF4 || b[1] <= 0x8F) then
        var n := (b[0] as int - 0xF0) * 262144 + (b[1] as int - 0x80) * 4096 + (b[2] as int - 0x80) * 64 + (b[3] as int - 0x80);
        assert IsScalar(n);
        Some(Step(n as char, 4))
      else None
    else None
  }

  /** `b.decode('utf-8')`, with `None` standing for `UnicodeDecodeError`. */
  function Decode(b: Bytes): (r: Option<string>)
    decreases |b|
  {
    if b == [] then Some([])
    else
      match DecodeStep(b)
      case None => None
      case Some(step) =>
        match Decode(b[step.width..])
        case None => None
        case Some(rest) => Some([step.c] + rest)
  }

  /** The UTF-8 encoding of one character (`str.encode('utf-8')`). */
  function EncodeChar(c: char): (r: Bytes)
    ensures 1 <= |r| <= 4
  {
    var n := c as int;
    if n < 0x80 then [n]
    else if n < 0x800 then [0xC0 + n / 64, 0x80 + n % 64]
    else if n < 0x10000 then [0xE0 + n / 4096, 0x80 + n / 64 % 64, 0x80 + n % 64]
    else [0xF0 + n / 262144, 0x80 + n / 4096 % 64, 0x80 + n / 64 % 64, 0x80 + n % 64]
  }

  function Encode(s: string): (r: Bytes)
  {
    if s == [] then [] else EncodeChar(s[0]) + Encode(s[1..])
  }

  lemma DecodeStepOfEncodeChar(c: char, rest: Bytes)
    ensures DecodeStep(EncodeChar(c) + rest) == Some(Step(c, |EncodeChar(c)|))
  {
    var n := c as int;
    if n < 0x80 {
    } else if n < 0x800 {
      DecodeTwo(c, rest);
    } else if n < 0x10000 {
      DecodeThree(c, rest);
    } else {
      DecodeFour(c, rest);
    }
  }

  lemma Split64(n: int)
    requires n >= 0
    ensures n == (n / 64) * 64 + n % 64 && 0 <= n % 64 < 64
  {
  }

  lemma DecodeTwo(c: char, rest: Bytes)
    requires 0x80 <= c as int < 0x800
    ensures DecodeStep(EncodeChar(c) + rest) == Some(Step(c, 2))
  {
    var n := c as int;
    Split64(n);
    var b := EncodeChar(c) + rest;
    assert b[0] as int - 0xC0 == n / 64 && b[1] as int - 0x80 == n % 64;
  }

  lemma DecodeThree(c: char, rest: Bytes)
    requires 0x800 <= c as int < 0x10000
    ensures DecodeStep(EncodeChar(c) + rest) == Some(Step(c, 3))
  {
    var n := c as int;
    Split64(n);
    Split64(n / 64);
    assert n / 64 / 64 == n / 4096;
    var b := EncodeChar(c) + rest;
    assert b[0] as int - 0xE0 == n / 4096 && b[1] as int - 0x80 == n / 64 % 64 && b[2] as int - 0x80 == n % 64;
    assert n == (n / 4096) * 4096 + (n / 64 % 64) * 64 + n % 64;
  }

  lemma DecodeFour(c: char, rest: Bytes)
    requires 0x10000 <= c as int
    ensures DecodeStep(EncodeChar(c) + rest) == Some(Step(c, 4))
  {
    var n := c as int;
    Split64(n);
    Split64(n / 64);
    Split64(n / 4096);
    assert n / 64 / 64 == n / 4096;
    assert n / 4096 / 64 == n / 262144;
    var b := EncodeChar(c) + rest;
    assert b[0] as int - 0xF0 == n / 262144 && b[1] as int - 0x80 == n / 4096 % 64;
    assert b[2] as int - 0x80 == n / 64 % 64 && b[3] as int - 0x80 == n % 64;
    assert n == (n / 262144) * 262144 + (n / 4096 % 64) * 4096 + (n / 64 % 64) * 64 + n % 64;
  }

  /** Decoding undoes encoding: text stored as UTF-8 reads back unchanged. */
  lemma {:induction false} DecodeEncode(s: string)
    ensures Decode(Encode(s)) == Some(s)
  {
    if s != [] {
      var head := EncodeChar(s[0]);
      var rest := Encode(s[1..]);
      DecodeStepOfEncodeChar(s[0], rest);
      assert (head + rest)[|head|..] == rest;
      DecodeEncode(s[1..]);
      assert s == [s[0]] + s[1..];
    }
  }

  lemma DivMod64(q: int, r: int)
    requires 0 <= r < 64
    ensures (q * 64 + r) / 64 == q && (q * 64 + r) % 64 == r
  {
  }

  lemma DivMod4096(q: int, r: int)
    requires 0 <= r < 4096
    ensures (q * 4096 + r) / 4096 == q && (q * 4096 + r) % 4096 == r
  {
  }

  lemma DivMod262144(q: int, r: int)
    requires 0 <= r < 262144
    ensures (q * 262144 + r) / 262144 == q && (q * 262144 + r) % 262144 == r
  {
  }

  lemma Encode2(hi: int, lo: int)
    requires 2 <= hi < 32 && 0 <= lo < 64
    ensures var n := hi * 64 + lo; 0x80 <= n < 0x800 && n / 64 == hi && n % 64 == lo
  {
    DivMod64(hi, lo);
  }

  lemma Encode3(x0: int, x1: int, x2: int)
    requires 0 <= x0 < 16 && 0 <= x1 < 64 && 0 <= x2 < 64
    requires x0 != 0 || x1 >= 32
    ensures var n := x0 * 4096 + x1 * 64 + x2;
      0x800 <= n < 0x10000 && n / 4096 == x0 && n / 64 % 64 == x1 && n % 64 == x2
  {
    var n := x0 * 4096 + x1 * 64 + x2;
    DivMod4096(x0, x1 * 64 + x2);
    DivMod64(x0 * 64 + x1, x2);
    assert n == (x0 * 64 + x1) * 64 + x2;
    DivMod64(x0, x1);
  }

  lemma Encode4(x0: int, x1: int, x2: int, x3: int)
    requires 0 <= x0 < 5 && 0 <= x1 < 64 && 0 <= x2 < 64 && 0 <= x3 < 64
    requires x0 != 0 || x1 >= 16
    requires x0 != 4 || x1 < 16
    ensures var n := x0 * 262144 + x1 * 4096 + x2 * 64 + x3;
      0x10000 <= n <= 0x10FFFF && n / 262144 == x0 && n / 4096 % 64 == x1 && n / 64 % 64 == x2 && n % 64 == x3
  {
    var n := x0 * 262144 + x1 * 4096 + x2 * 64 + x3;
    DivMod262144(x0, x1 * 4096 + x2 * 64 + x3);
    assert n == (x0 * 64 + x1) * 4096 + (x2 * 64 + x3);
    DivMod4096(x0 * 64 + x1, x2 * 64 + x3);
    DivMod64(x0, x1);
    assert n == ((x0 * 64 + x1) * 64 + x2) * 64 + x3;
    DivMod64((x0 * 64 + x1) * 64 + x2, x3);
    DivMod64(x0 * 64 + x1, x2);
  }

  lemma EncodeCharOfDecodeStep(b: Bytes)
    requires DecodeStep(b).Some?
    ensures EncodeChar(DecodeStep(b).value.c) == b[..DecodeStep(b).value.width]
  {
    if b[0] < 0x80 {
    } else if 0xC2 <= b[0] <= 0xDF {
      EncodeOfTwo(b);
    } else if 0xE0 <= b[0] <= 0xEF {
      EncodeOfThree(b);
    } else {
      EncodeOfFour(b);
    }
  }

  lemma EncodeOfTwo(b: Bytes)
    requires DecodeStep(b).Some? && 0xC2 <= b[0] <= 0xDF
    ensures EncodeChar(DecodeStep(b).value.c) == b[..2]
  {
    Encode2(b[0] as int - 0xC0, b[1] as int - 0x80);
  }

  lemma EncodeOfThree(b: Bytes)
    requires DecodeStep(b).Some? && 0xE0 <= b[0] <= 0xEF
    ensures EncodeChar(DecodeStep(b).value.c) == b[..3]
  {
    Encode3(b[0] as int - 0xE0, b[1] as int - 0x80, b[2] as int - 0x80);
  }

  lemma EncodeOfFour(b: Bytes)
    requires DecodeStep(b).Some? && 0xF0 <= b[0]
    ensures EncodeChar(DecodeStep(b).value.c) == b[..4]
  {
    Encode4(b[0] as int - 0xF0, b[1] as int - 0x80, b[2] as int - 0x80, b[3] as int - 0x80);
  }

  /** A successful decode is the first character followed by the decoding of
      the rest. */
  lemma DecodeCons(b: Bytes)
    requires b != [] && Decode(b).Some?
    ensures DecodeStep(b).Some?
    ensures Decode(b[DecodeStep(b).value.width..]).Some?
    ensures Decode(b).value == [DecodeStep(b).value.c] + Decode(b[DecodeStep(b).value.width..]).value
  {
  }

  lemma EncodeCons(c: char, t: string)
    ensures Encode([c] + t) == EncodeChar(c) + Encode(t)
  {
    assert ([c] + t)[0] == c && ([c] + t)[1..] == t;
  }

  /** One step of `EncodeDecode`: the bytes are the first character's
      encoding followed by the rest, once the rest re-encodes to itself. */
  lemma EncodeDecodeStep(b: Bytes)
    requires b != [] && Decode(b).Some?
    ensures DecodeStep(b).Some? && Decode(b[DecodeStep(b).value.width..]).Some?
    ensures Encode(Decode(b[DecodeStep(b).value.width..]).value) == b[DecodeStep(b).value.width..] ==>
      Encode(Decode(b).value) == b
  {
    DecodeCons(b);
    var step := DecodeStep(b).value;
    var tail := b[step.width..];
    var t := Decode(tail).value;
    EncodeCharOfDecodeStep(b);
    Recompose(b, step.c, step.width, t);
  }

  lemma Recompose(b: Bytes, c: char, w: nat, t: string)
    requires w <= |b| && EncodeChar(c) == b[..w]
    ensures Encode(t) == b[w..] ==> Encode([c] + t) == b
  {
    EncodeCons(c, t);
    assert b == b[..w] + b[w..];
  }

  /** The decoder accepts only the canonical encoding of what it returns: no
      overlong forms, no surrogates, nothing beyond U+10FFFF. */
  lemma {:induction false} EncodeDecode(b: Bytes)
    requires Decode(b).Some?
    ensures Encode(Decode(b).value) == b
    decreases |b|
  {
    if b != [] {
      EncodeDecodeStep(b);
      EncodeDecode(b[DecodeStep(b).value.width..]);
    }
  }
}
