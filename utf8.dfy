/** UTF-8 as Rust's `String::from_utf8`, `read_to_string` and `str::as_bytes`
    use it: the well-formed byte sequences of section 3 of RFC 3629 (shortest
    form only, no surrogates, nothing above U+10FFFF). */
module Utf8 {
  import opened Common

  predicate IsContinuation(b: byte) { 0x80 <= b <= 0xBF }

  /** The bytes of one scalar value, shortest form. */
  function EncodeChar(c: char): (r: seq<byte>)
    ensures 1 <= |r| <= 4
    ensures (|r| == 1) == (c as int < 0x80)
  {
    var n := c as int;
    if n < 0x80 then [n]
    else if n < 0x800 then [0xC0 + n / 64, 0x80 + n % 64]
    else if n < 0x1_0000 then [0xE0 + n / 4096, 0x80 + n / 64 % 64, 0x80 + n % 64]
    else [0xF0 + n / 262144, 0x80 + n / 4096 % 64, 0x80 + n / 64 % 64, 0x80 + n % 64]
  }

  /** `as_bytes` of a string. */
  function Encode(s: string): (r: seq<byte>)
    ensures |s| <= |r| <= 4 * |s|
    ensures |r| == |s| <==> IsAscii(s)
  {
    if s == [] then [] else EncodeChar(s[0]) + Encode(s[1..])
  }

  /** The first scalar value of `b` and the number of bytes it takes, or None
      when `b` does not start with a well-formed sequence. */
  function DecodeChar(b: seq<byte>): (r: Option<(char, nat)>)
    requires |b| > 0
    ensures r.Some? ==> 1 <= r.value.1 <= |b| && r.value.1 <= 4
  {
    var b0 := b[0] as int;
    if b0 < 0x80 then Some((b0 as char, 1))
    else if 0xC2 <= b0 <= 0xDF then
      if 2 <= |b| && IsContinuation(b[1])
      then Some((((b0 - 0xC0) * 64 + (b[1] as int - 0x80)) as char, 2))
      else None
    else if 0xE0 <= b0 <= 0xEF then
      var lo := if b0 == 0xE0 then 0xA0 else 0x80;
      var hi := if b0 == 0xED then 0x9F else 0xBF;
      if 3 <= |b| && lo <= b[1] <= hi && IsContinuation(b[2])
      then Some((((b0 - 0xE0) * 4096 + (b[1] as int - 0x80) * 64 + (b[2] as int - 0x80)) as char, 3))
      else None
    else if 0xF0 <= b0 <= 0xF4 then
      var lo := if b0 == 0xF0 then 0x90 else 0x80;
      var hi := if b0 == 0xF4 then 0x8F else 0xBF;
      if 4 <= |b| && lo <= b[1] <= hi && IsContinuation(b[2]) && IsContinuation(b[3])
      then Some((((b0 - 0xF0) * 262144 + (b[1] as int - 0x80) * 4096 + (b[2] as int - 0x80) * 64 + (b[3] as int - 0x80)) as char, 4))
      else None
    else None
  }

  /** `String::from_utf8`: the text `b` encodes, or None when it is not UTF-8. */
  function Decode(b: seq<byte>): (r: Option<string>)
    ensures r.Some? ==> |r.value| <= |b| <= 4 * |r.value|
    decreases |b|
  {
    if b == [] then Some([])
    else match DecodeChar(b)
      case None => None
      case Some((c, n)) =>
        match Decode(b[n..])
        case None => None
        case Some(rest) => Some([c] + rest)
  }

  predicate IsAscii(s: string)
  {
    forall i | 0 <= i < |s| :: s[i] as int < 0x80
  }

  /** Two-byte form: the lead byte is C2..DF and the digits reassemble `n`. */
  lemma TwoByteDigits(n: int)
    requires 0x80 <= n < 0x800
    ensures 2 <= n / 64 < 32 && n / 64 * 64 + n % 64 == n
  {
  }

  /** Three-byte form: the lead byte's range restrictions of RFC 3629 hold. */
  lemma ThreeByteDigits(n: int)
    requires 0x800 <= n < 0x1_0000
    ensures var a, m := n / 4096, n / 64 % 64;
      && a < 16
      && a * 4096 + m * 64 + n % 64 == n
      && (a == 0 ==> m >= 0x20)
      && (a == 13 && n < 0xD800 ==> m < 0x20)
  {
    var q := n / 64;
    assert q / 64 == n / 4096;
  }

  lemma FourByteDigits(n: int)
    requires 0x1_0000 <= n < 0x11_0000
    ensures var a, m := n / 262144, n / 4096 % 64;
      && a <= 4
      && a * 262144 + m * 4096 + n / 64 % 64 * 64 + n % 64 == n
      && (a == 0 ==> m >= 0x10)
      && (a == 4 ==> m < 0x10)
  {
    var q := n / 64;
    var q2 := q / 64;
    assert q2 == n / 4096;
    assert q2 / 64 == n / 262144;
  }

  lemma DecodeEncodeChar(c: char, rest: seq<byte>)
    ensures DecodeChar(EncodeChar(c) + rest) == Some((c, |EncodeChar(c)|))
  {
    var n := c as int;
    if n < 0x80 {
    } else if n < 0x800 {
      TwoByteDigits(n);
    } else if n < 0x1_0000 {
      ThreeByteDigits(n);
    } else {
      FourByteDigits(n);
    }
  }

  /** Splitting off the low six bits undoes appending them. */
  lemma SixBits(a: int, d: int)
    requires 0 <= a && 0 <= d < 64
    ensures (a * 64 + d) / 64 == a && (a * 64 + d) % 64 == d
  {
  }

  lemma EncodeDecodeTwo(b: seq<byte>)
    requires |b| > 0 && 0xC2 <= b[0] <= 0xDF && DecodeChar(b).Some?
    ensures EncodeChar(DecodeChar(b).value.0) == b[..2]
  {
    var b0 := b[0] as int;
    SixBits(b0 - 0xC0, b[1] - 0x80);
  }

  lemma EncodeDecodeThree(b: seq<byte>)
    requires |b| > 0 && 0xE0 <= b[0] <= 0xEF && DecodeChar(b).Some?
    ensures EncodeChar(DecodeChar(b).value.0) == b[..3]
  {
    var b0 := b[0] as int;
    var hi := (b0 - 0xE0) * 64 + (b[1] - 0x80);
    SixBits(hi, b[2] - 0x80);
    SixBits(b0 - 0xE0, b[1] - 0x80);
  }

  lemma EncodeDecodeFour(b: seq<byte>)
    requires |b| > 0 && 0xF0 <= b[0] <= 0xF4 && DecodeChar(b).Some?
    ensures EncodeChar(DecodeChar(b).value.0) == b[..4]
  {
    var b0 := b[0] as int;
    var top := (b0 - 0xF0) * 64 + (b[1] - 0x80);
    var hi := top * 64 + (b[2] - 0x80);
    SixBits(hi, b[3] - 0x80);
    SixBits(top, b[2] - 0x80);
    SixBits(b0 - 0xF0, b[1] - 0x80);
  }

  lemma EncodeDecodeChar(b: seq<byte>)
    requires |b| > 0 && DecodeChar(b).Some?
    ensures EncodeChar(DecodeChar(b).value.0) == b[..DecodeChar(b).value.1]
  {
    if 0xC2 <= b[0] <= 0xDF {
      EncodeDecodeTwo(b);
    } else if 0xE0 <= b[0] <= 0xEF {
      EncodeDecodeThree(b);
    } else if 0xF0 <= b[0] <= 0xF4 {
      EncodeDecodeFour(b);
    }
  }

  /** Decoding the encoding of any text gives the text back. */
  lemma {:induction false} DecodeEncode(s: string)
    ensures Decode(Encode(s)) == Some(s)
  {
    if s != [] {
      var e := EncodeChar(s[0]);
      DecodeEncodeChar(s[0], Encode(s[1..]));
      assert (e + Encode(s[1..]))[|e|..] == Encode(s[1..]);
      DecodeEncode(s[1..]);
      assert [s[0]] + s[1..] == s;
    }
  }

  /** Whatever decodes successfully re-encodes to the same bytes. */
  lemma {:induction false} EncodeDecode(b: seq<byte>)
    requires Decode(b).Some?
    ensures Encode(Decode(b).value) == b
    decreases |b|
  {
    if b != [] {
      var (c, n) := DecodeChar(b).value;
      var rest := Decode(b[n..]).value;
      var t := [c] + rest;
      assert Decode(b) == Some(t);
      assert t[0] == c && t[1..] == rest;
      assert Encode(t) == EncodeChar(c) + Encode(rest);
      EncodeDecodeChar(b);
      EncodeDecode(b[n..]);
      assert b[..n] + b[n..] == b;
    }
  }

  /** Text made of ASCII characters encodes one byte per character, each byte the
      character's code. */
  lemma {:induction false} EncodeAscii(s: string)
    requires IsAscii(s)
    ensures |Encode(s)| == |s|
    ensures forall i | 0 <= i < |s| :: Encode(s)[i] == s[i] as int
  {
    if s != [] {
      EncodeAscii(s[1..]);
    }
  }

  /** Bytes below 0x80 decode one character each, the character with that code:
      such bytes are always valid UTF-8. */
  lemma {:induction false} DecodeAscii(b: seq<byte>)
    requires forall i | 0 <= i < |b| :: b[i] < 0x80
    ensures Decode(b).Some?
    ensures |Decode(b).value| == |b|
    ensures forall i | 0 <= i < |b| :: Decode(b).value[i] as int == b[i]
  {
    if b != [] {
      DecodeAscii(b[1..]);
    }
  }
}
