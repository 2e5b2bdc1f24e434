/** Strict UTF-8, as `bytes.decode('utf-8')` applies it: a byte sequence
    decodes only if it is the shortest-form encoding of a sequence of Unicode
    scalar values; anything else (a byte that cannot lead a sequence, a
    truncated or overlong sequence, an encoded surrogate, a value past
    U+10FFFF) is a decoding error. */
module Utf8 {
  import opened Wrappers

  type byte = x: int | 0 <= x < 0x100

  predicate IsContinuation(b: byte) {
    0x80 <= b < 0xC0
  }

  /** How many bytes a sequence starting with `b0` has; 0 when `b0` cannot start one. */
  function SequenceLength(b0: byte): (n: nat)
    ensures n <= 4
  {
    if b0 < 0x80 then 1
    else if 0xC2 <= b0 < 0xE0 then 2
    else if 0xE0 <= b0 < 0xF0 then 3
    else if 0xF0 <= b0 < 0xF5 then 4
    else 0
  }

  /** Bounds on the second byte; narrower than a plain continuation byte after
      E0 and F0 (overlong forms), ED (surrogates) and F4 (past U+10FFFF). */
  function SecondMin(b0: byte): byte {
    if b0 == 0xE0 then 0xA0 else if b0 == 0xF0 then 0x90 else 0x80
  }

  function SecondMax(b0: byte): byte {
    if b0 == 0xED then 0x9F else if b0 == 0xF4 then 0x8F else 0xBF
  }

  /** The six payload bits of the continuation byte at `i`, when there is one. */
  function Payload(b: seq<byte>, i: nat): int {
    if i < |b| then b[i] as int - 0x80 else 0
  }

  /** One decoded scalar value and the number of bytes it took. */
  datatype Decoded = Decoded(c: char, width: nat)

  function DecodeFirst(b: seq<byte>): (r: Option<Decoded>)
    requires |b| > 0
    ensures r.Some? ==> 1 <= r.value.width <= |b| && r.value.width == SequenceLength(b[0])
  {
    var n := SequenceLength(b[0]);
    var b0, b1, b2, b3 := b[0] as int, Payload(b, 1), Payload(b, 2), Payload(b, 3);
    if n == 0 || |b| < n then None
    else if n == 1 then Some(Decoded(b[0] as char, 1))
    else if !(SecondMin(b[0]) <= b[1] <= SecondMax(b[0])) then None
    else if n == 2 then
      Some(Decoded(((b0 - 0xC0) * 0x40 + b1) as char, 2))
    else if !IsContinuation(b[2]) then None
    else if n == 3 then
      Some(Decoded(((b0 - 0xE0) * 0x1000 + b1 * 0x40 + b2) as char, 3))
    else if !IsContinuation(b[3]) then None
    else
      Some(Decoded(((b0 - 0xF0) * 0x40000 + b1 * 0x1000 + b2 * 0x40 + b3) as char, 4))
  }

  /** The text `b` encodes, or None when `b` is not valid UTF-8. */
  function Decode(b: seq<byte>): Option<string>
    decreases |b|
  {
    if b == [] then Some([])
    else match DecodeFirst(b)
      case None => None
      case Some(d) =>
        match Decode(b[d.width..])
        case None => None
        case Some(rest) => Some([d.c] + rest)
  }

  function EncodeChar(c: char): (r: seq<byte>)
    ensures 1 <= |r| <= 4
  {
    var x := c as int;
    var q1 := x / 0x40;
    var q2 := q1 / 0x40;
    var q3 := q2 / 0x40;
    if x < 0x80 then [x]
    else if x < 0x800 then [0xC0 + q1, 0x80 + x % 0x40]
    else if x < 0x10000 then [0xE0 + q2, 0x80 + q1 % 0x40, 0x80 + x % 0x40]
    else [0xF0 + q3, 0x80 + q2 % 0x40, 0x80 + q1 % 0x40, 0x80 + x % 0x40]
  }

  function Encode(s: string): seq<byte> {
    if s == [] then [] else EncodeChar(s[0]) + Encode(s[1..])
  }

  /** The bytes that are the UTF-8 encoding of some text. */
  ghost predicate IsValid(b: seq<byte>) {
    exists s :: Encode(s) == b
  }

  lemma DecodeFirstOfEncodeChar(c: char, rest: seq<byte>)
    ensures DecodeFirst(EncodeChar(c) + rest) == Some(Decoded(c, |EncodeChar(c)|))
  {
    var x := c as int;
    var q1 := x / 0x40;
    var q2 := q1 / 0x40;
    var q3 := q2 / 0x40;
    assert x == q1 * 0x40 + x % 0x40;
    assert q1 == q2 * 0x40 + q1 % 0x40;
    assert q2 == q3 * 0x40 + q2 % 0x40;
  }

  lemma {:induction false} EncodeAppend(s: string, t: string)
    ensures Encode(s + t) == Encode(s) + Encode(t)
  {
    if s != [] {
      assert (s + t)[1..] == s[1..] + t;
      EncodeAppend(s[1..], t);
    } else {
      assert s + t == t;
    }
  }

  /** Decoding undoes encoding. */
  lemma {:induction false} DecodeEncode(s: string)
    ensures Decode(Encode(s)) == Some(s)
  {
    if s != [] {
      var e := EncodeChar(s[0]);
      assert Encode(s) == e + Encode(s[1..]);
      DecodeFirstOfEncodeChar(s[0], Encode(s[1..]));
      assert Encode(s)[|e|..] == Encode(s[1..]);
      DecodeEncode(s[1..]);
      assert [s[0]] + s[1..] == s;
    }
  }

  lemma EncodeCharOfDecodeFirst(b: seq<byte>)
    requires |b| > 0 && DecodeFirst(b).Some?
    ensures EncodeChar(DecodeFirst(b).value.c) == b[..DecodeFirst(b).value.width]
  {
    var d := DecodeFirst(b).value;
    var x := d.c as int;
    var b0, b1, b2, b3 := b[0] as int, Payload(b, 1), Payload(b, 2), Payload(b, 3);
    if d.width == 2 {
      assert x == (b0 - 0xC0) * 0x40 + b1;
      assert x / 0x40 == b0 - 0xC0;
    } else if d.width == 3 {
      assert x == (b0 - 0xE0) * 0x1000 + b1 * 0x40 + b2;
      assert x / 0x40 == (b0 - 0xE0) * 0x40 + b1;
      assert x / 0x40 / 0x40 == b0 - 0xE0;
    } else if d.width == 4 {
      assert x == (b0 - 0xF0) * 0x40000 + b1 * 0x1000 + b2 * 0x40 + b3;
      assert x / 0x40 == (b0 - 0xF0) * 0x1000 + b1 * 0x40 + b2;
      assert x / 0x40 / 0x40 == (b0 - 0xF0) * 0x40 + b1;
      assert x / 0x40 / 0x40 / 0x40 == b0 - 0xF0;
    }
  }

  /** Encoding undoes a successful decoding: the decoder accepts only
      canonical encodings. */
  lemma {:induction false} EncodeDecode(b: seq<byte>)
    requires Decode(b).Some?
    ensures Encode(Decode(b).value) == b
  {
    if b != [] {
      var d := DecodeFirst(b).value;
      var rest := Decode(b[d.width..]);
      assert rest.Some? && Decode(b).value == [d.c] + rest.value;
      var s := [d.c] + rest.value;
      assert s[0] == d.c && s[1..] == rest.value;
      assert Encode(s) == EncodeChar(d.c) + Encode(rest.value);
      EncodeCharOfDecodeFirst(b);
      EncodeDecode(b[d.width..]);
      assert b == b[..d.width] + b[d.width..];
    }
  }

  /** Exactly the valid encodings decode; everything else is the error path. */
  lemma DecodeSucceedsIffValid(b: seq<byte>)
    ensures Decode(b).Some? <==> IsValid(b)
  {
    if Decode(b).Some? {
      EncodeDecode(b);
    }
    if IsValid(b) {
      var s :| Encode(s) == b;
      DecodeEncode(s);
    }
  }
}
