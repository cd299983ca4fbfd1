/** The two engines of the `base64` crate that the tool uses, written out as
    RFC 4648 defines them:
    - `STANDARD`: the alphabet of section 4 (`+` and `/` for 62 and 63),
      output padded with `=` to a multiple of four characters, and on input the
      padding required in its canonical form;
    - `URL_SAFE_NO_PAD`: the URL- and filename-safe alphabet of section 5 (`-`
      and `_`), no padding on output (section 3.2) and none accepted on input.
    Both decoders are strict, as the crate's defaults are: no whitespace, no
    character outside the alphabet, and the bits a final partial group leaves
    over must be zero. */
module Base64 {
  import opened Common

  datatype Engine = Standard | UrlSafeNoPad {
    predicate Padded() { Standard? }
  }

  /** The character for the 6-bit value `v` (Table 1 and Table 2 of RFC 4648). */
  function Symbol(e: Engine, v: int): char
    requires 0 <= v < 64
  {
    if v < 26 then ('A' as int + v) as char
    else if v < 52 then ('a' as int + (v - 26)) as char
    else if v < 62 then ('0' as int + (v - 52)) as char
    else if v == 62 then (if e.Standard? then '+' else '-')
    else (if e.Standard? then '/' else '_')
  }

  /** The 6-bit value of `c`, None when `c` is not in the engine's alphabet. */
  function Value(e: Engine, c: char): (r: Option<int>)
    ensures r.Some? ==> 0 <= r.value < 64 && Symbol(e, r.value) == c
  {
    if 'A' <= c <= 'Z' then Some(c as int - 'A' as int)
    else if 'a' <= c <= 'z' then Some(c as int - 'a' as int + 26)
    else if '0' <= c <= '9' then Some(c as int - '0' as int + 52)
    else if c == (if e.Standard? then '+' else '-') then Some(62)
    else if c == (if e.Standard? then '/' else '_') then Some(63)
    else None
  }

  predicate InAlphabet(e: Engine, c: char) { Value(e, c).Some? }

  /** `Symbol` and `Value` are inverse on the alphabet. */
  lemma ValueOfSymbol(e: Engine, v: int)
    requires 0 <= v < 64
    ensures Value(e, Symbol(e, v)) == Some(v)
  {
  }

  function Padding(e: Engine, k: nat): string
  {
    if e.Padded() then seq(k, _ => '=') else ""
  }

  /** The characters of the full group for `b0 b1 b2`. */
  function GroupSymbols(e: Engine, b0: byte, b1: byte, b2: byte): (r: string)
    ensures |r| == 4
  {
    [Symbol(e, b0 / 4), Symbol(e, b0 % 4 * 16 + b1 / 16),
     Symbol(e, b1 % 16 * 4 + b2 / 64), Symbol(e, b2 % 64)]
  }

  /** The characters of a final group of one or two bytes, zero bits appended. */
  function PartialSymbols(e: Engine, b: seq<byte>): (r: string)
    requires 1 <= |b| <= 2
    ensures |r| == |b| + 1
  {
    if |b| == 1 then [Symbol(e, b[0] / 4), Symbol(e, b[0] % 4 * 16)]
    else [Symbol(e, b[0] / 4), Symbol(e, b[0] % 4 * 16 + b[1] / 16), Symbol(e, b[1] % 16 * 4)]
  }

  /** Encodes `b`, three bytes to four characters, the last group with one or two
      bytes padded (or not) as the engine says. */
  function Encode(e: Engine, b: seq<byte>): (r: string)
    ensures r == "" <==> b == []
    ensures |b| % 3 == 0 ==> |r| == |b| / 3 * 4
    ensures e.Padded() ==> |r| % 4 == 0
    decreases |b|
  {
    if |b| == 0 then ""
    else if |b| < 3 then PartialSymbols(e, b) + Padding(e, 3 - |b|)
    else GroupSymbols(e, b[0], b[1], b[2]) + Encode(e, b[3..])
  }

  /** Four alphabet characters to three bytes. */
  function DecodeGroup(e: Engine, s: string): (r: Result<seq<byte>>)
    requires |s| == 4
    ensures r.Err? ==> r.error == Base64Decode
  {
    match (Value(e, s[0]), Value(e, s[1]), Value(e, s[2]), Value(e, s[3]))
    case (Some(v0), Some(v1), Some(v2), Some(v3)) =>
      Ok([v0 * 4 + v1 / 16, v1 % 16 * 16 + v2 / 4, v2 % 4 * 64 + v3])
    case _ => Err(Base64Decode)
  }

  /** A final group of two or three characters (the padding already removed):
      one or two bytes, and the bits left over in the last character must be
      zero. A single character cannot hold a byte. */
  function DecodePartial(e: Engine, s: string): (r: Result<seq<byte>>)
    requires |s| < 4
    ensures r.Err? ==> r.error == Base64Decode
  {
    if |s| == 2 then
      match (Value(e, s[0]), Value(e, s[1]))
      case (Some(v0), Some(v1)) =>
        if v1 % 16 == 0 then Ok([v0 * 4 + v1 / 16]) else Err(Base64Decode)
      case _ => Err(Base64Decode)
    else if |s| == 3 then
      match (Value(e, s[0]), Value(e, s[1]), Value(e, s[2]))
      case (Some(v0), Some(v1), Some(v2)) =>
        if v2 % 4 == 0 then Ok([v0 * 4 + v1 / 16, v1 % 16 * 16 + v2 / 4]) else Err(Base64Decode)
      case _ => Err(Base64Decode)
    else Err(Base64Decode)
  }

  /** The engine's `decode`. */
  function Decode(e: Engine, s: string): (r: Result<seq<byte>>)
    ensures r.Err? ==> r.error == Base64Decode
    decreases |s|
  {
    if |s| == 0 then Ok([])
    else if |s| < 4 then
      if e.Padded() then Err(Base64Decode) else DecodePartial(e, s)
    else if |s| == 4 && e.Padded() && s[3] == '=' then
      if s[2] == '=' then DecodePartial(e, s[..2]) else DecodePartial(e, s[..3])
    else
      var head :- DecodeGroup(e, s[..4]);
      var rest :- Decode(e, s[4..]);
      Ok(head + rest)
  }

  /** Appending `y` as low digits in base `k` and splitting them off again. */
  lemma Digit(x: int, y: int, k: int)
    requires k == 4 || k == 16 || k == 64
    requires 0 <= x && 0 <= y < k
    ensures (x * k + y) / k == x && (x * k + y) % k == y
  {
  }

  /** The bit regrouping of a full group, three 8-bit bytes into four 6-bit
      values, is undone by the regrouping `DecodeGroup` applies. */
  lemma RegroupBits(b0: byte, b1: byte, b2: byte)
    ensures var v0, v1, v2, v3 := b0 / 4, b0 % 4 * 16 + b1 / 16, b1 % 16 * 4 + b2 / 64, b2 % 64;
      && v0 * 4 + v1 / 16 == b0
      && v1 % 16 * 16 + v2 / 4 == b1
      && v2 % 4 * 64 + v3 == b2
  {
    Digit(b0 % 4, b1 / 16, 16);
    Digit(b1 % 16, b2 / 64, 4);
  }

  /** A full group decodes to the three bytes it encodes. */
  lemma GroupRoundTrip(e: Engine, b0: byte, b1: byte, b2: byte)
    ensures DecodeGroup(e, GroupSymbols(e, b0, b1, b2)) == Ok([b0, b1, b2])
  {
    var g := GroupSymbols(e, b0, b1, b2);
    ValueOfSymbol(e, b0 / 4);
    ValueOfSymbol(e, b0 % 4 * 16 + b1 / 16);
    ValueOfSymbol(e, b1 % 16 * 4 + b2 / 64);
    ValueOfSymbol(e, b2 % 64);
    RegroupBits(b0, b1, b2);
  }

  /** A final group of one or two bytes decodes to those bytes. */
  lemma PartialRoundTrip(e: Engine, b: seq<byte>)
    requires 1 <= |b| <= 2
    ensures DecodePartial(e, PartialSymbols(e, b)) == Ok(b)
  {
    ValueOfSymbol(e, b[0] / 4);
    if |b| == 1 {
      var v0, v1 := b[0] / 4, b[0] % 4 * 16;
      ValueOfSymbol(e, v1);
      Digit(b[0] % 4, 0, 16);
      assert v1 % 16 == 0 && v1 / 16 == b[0] % 4;
      assert v0 * 4 + v1 / 16 == b[0];
      assert b == [b[0]];
    } else {
      ValueOfSymbol(e, b[0] % 4 * 16 + b[1] / 16);
      ValueOfSymbol(e, b[1] % 16 * 4);
      Digit(b[0] % 4, b[1] / 16, 16);
      Digit(b[1] % 16, 0, 4);
      assert b == [b[0], b[1]];
    }
  }

  /** The encoding of one or two bytes decodes to them. */
  lemma DecodeEncodeFinal(e: Engine, b: seq<byte>)
    requires 1 <= |b| < 3
    ensures Decode(e, Encode(e, b)) == Ok(b)
  {
    var s := Encode(e, b);
    var p := PartialSymbols(e, b);
    PartialRoundTrip(e, b);
    if e.Padded() {
      assert s[3] == '=';
      if |b| == 1 {
        assert s[2] == '=' && s[..2] == p;
      } else {
        assert s[2] == p[2] != '=' && s[..3] == p;
      }
    } else {
      assert s == p;
    }
  }

  /** A full group in front of a decodable rest decodes to its bytes in front of
      the rest's. */
  lemma DecodeGroupFirst(e: Engine, g: string, rest: string, head: seq<byte>, tail: seq<byte>)
    requires |g| == 4 && g[3] != '='
    requires DecodeGroup(e, g) == Ok(head) && Decode(e, rest) == Ok(tail)
    ensures Decode(e, g + rest) == Ok(head + tail)
  {
    var s := g + rest;
    assert s[..4] == g && s[4..] == rest;
  }

  /** Decoding the encoding of any byte sequence gives the sequence back. */
  lemma {:induction false} DecodeEncode(e: Engine, b: seq<byte>)
    ensures Decode(e, Encode(e, b)) == Ok(b)
    decreases |b|
  {
    if |b| == 0 {
    } else if |b| < 3 {
      DecodeEncodeFinal(e, b);
    } else {
      DecodeEncode(e, b[3..]);
      DecodeEncodeGroup(e, b);
    }
  }

  /** A full group in front of a rest whose encoding decodes back. */
  lemma DecodeEncodeGroup(e: Engine, b: seq<byte>)
    requires |b| >= 3 && Decode(e, Encode(e, b[3..])) == Ok(b[3..])
    ensures Decode(e, Encode(e, b)) == Ok(b)
  {
    var g := GroupSymbols(e, b[0], b[1], b[2]);
    var rest := Encode(e, b[3..]);
    assert DecodeGroup(e, g) == Ok([b[0], b[1], b[2]]) by { GroupRoundTrip(e, b[0], b[1], b[2]); }
    assert Encode(e, b) == g + rest;
    DecodeGroupFirst(e, g, rest, [b[0], b[1], b[2]], b[3..]);
    assert [b[0], b[1], b[2]] + b[3..] == b;
  }

  /** The 6-bit values `v1 v2` regrouped into bytes and back. */
  lemma Ungroup(v0: int, v1: int, v2: int, v3: int)
    requires 0 <= v0 < 64 && 0 <= v1 < 64 && 0 <= v2 < 64 && 0 <= v3 < 64
    ensures var t0, t1, t2 := v0 * 4 + v1 / 16, v1 % 16 * 16 + v2 / 4, v2 % 4 * 64 + v3;
      && 0 <= t0 < 256 && 0 <= t1 < 256 && 0 <= t2 < 256
      && t0 / 4 == v0 && t0 % 4 * 16 + t1 / 16 == v1 && t1 % 16 * 4 + t2 / 64 == v2 && t2 % 64 == v3
  {
    Digit(v0, v1 / 16, 4);
    Digit(v1 % 16, v2 / 4, 16);
    Digit(v2 % 4, v3, 64);
  }

  /** A decodable full group is the encoding of the bytes it decodes to. */
  lemma GroupInverse(e: Engine, g: string)
    requires |g| == 4 && DecodeGroup(e, g).Ok?
    ensures var t := DecodeGroup(e, g).value; |t| == 3 && GroupSymbols(e, t[0], t[1], t[2]) == g
  {
    var v0, v1, v2, v3 := Value(e, g[0]).value, Value(e, g[1]).value, Value(e, g[2]).value, Value(e, g[3]).value;
    var t := DecodeGroup(e, g).value;
    assert Symbol(e, v0) == g[0] && Symbol(e, v1) == g[1] && Symbol(e, v2) == g[2] && Symbol(e, v3) == g[3];
    assert t == [v0 * 4 + v1 / 16, v1 % 16 * 16 + v2 / 4, v2 % 4 * 64 + v3] by {
      assert Value(e, g[0]).Some? && Value(e, g[1]).Some? && Value(e, g[2]).Some? && Value(e, g[3]).Some?;
    }
    Ungroup(v0, v1, v2, v3);
    assert GroupSymbols(e, t[0], t[1], t[2]) == [Symbol(e, v0), Symbol(e, v1), Symbol(e, v2), Symbol(e, v3)];
  }

  lemma PairInverse(e: Engine, s: string)
    requires |s| == 2 && DecodePartial(e, s).Ok?
    ensures var t := DecodePartial(e, s).value; |t| == 1 && PartialSymbols(e, t) == s
  {
    var v0, v1 := Value(e, s[0]).value, Value(e, s[1]).value;
    var t := DecodePartial(e, s).value;
    assert v1 % 16 == 0 && t == [v0 * 4 + v1 / 16];
    Ungroup(v0, v1, 0, 0);
    var r := PartialSymbols(e, t);
    assert r[0] == Symbol(e, v0) == s[0];
    assert r[1] == Symbol(e, v1) == s[1];
  }

  lemma TripleInverse(e: Engine, s: string)
    requires |s| == 3 && DecodePartial(e, s).Ok?
    ensures var t := DecodePartial(e, s).value; |t| == 2 && PartialSymbols(e, t) == s
  {
    var v0, v1, v2 := Value(e, s[0]).value, Value(e, s[1]).value, Value(e, s[2]).value;
    var t := DecodePartial(e, s).value;
    assert v2 % 4 == 0 && t == [v0 * 4 + v1 / 16, v1 % 16 * 16 + v2 / 4];
    Ungroup(v0, v1, v2, 0);
    var r := PartialSymbols(e, t);
    assert r[0] == Symbol(e, v0) == s[0];
    assert r[1] == Symbol(e, v1) == s[1];
    assert r[2] == Symbol(e, v2) == s[2];
  }

  /** A decodable final group (padding removed) is the encoding, without
      padding, of the bytes it decodes to. */
  lemma PartialInverse(e: Engine, s: string)
    requires |s| < 4 && DecodePartial(e, s).Ok?
    ensures var t := DecodePartial(e, s).value; 1 <= |t| <= 2 && PartialSymbols(e, t) == s
  {
    if |s| == 2 {
      PairInverse(e, s);
    } else {
      TripleInverse(e, s);
    }
  }

  /** The decoders accept only canonical text: whatever decodes is exactly the
      encoding of what it decodes to. */
  lemma {:induction false} EncodeDecode(e: Engine, s: string)
    requires Decode(e, s).Ok?
    ensures Encode(e, Decode(e, s).value) == s
    decreases |s|
  {
    var b := Decode(e, s).value;
    if |s| == 0 {
    } else if |s| < 4 {
      PartialInverse(e, s);
    } else if |s| == 4 && e.Padded() && s[3] == '=' {
      if s[2] == '=' {
        PartialInverse(e, s[..2]);
        assert s == s[..2] + "==";
      } else {
        PartialInverse(e, s[..3]);
        assert s == s[..3] + "=";
      }
    } else {
      var head := DecodeGroup(e, s[..4]).value;
      var tail := Decode(e, s[4..]).value;
      assert b == head + tail;
      GroupInverse(e, s[..4]);
      EncodeDecode(e, s[4..]);
      assert b[3..] == tail;
      assert Encode(e, b) == GroupSymbols(e, b[0], b[1], b[2]) + Encode(e, tail);
      assert s == s[..4] + s[4..];
    }
  }

  /** Output length: 4 * ceil(n / 3) characters with padding, ceil(4n / 3)
      without (sections 3.2 and 4 of RFC 4648). */
  lemma {:induction false} EncodedLength(e: Engine, b: seq<byte>)
    ensures e.Padded() ==> |Encode(e, b)| == 4 * ((|b| + 2) / 3)
    ensures !e.Padded() ==> |Encode(e, b)| == (4 * |b| + 2) / 3
    decreases |b|
  {
    var n := |b|;
    if n >= 3 {
      EncodedLength(e, b[3..]);
      assert |Encode(e, b)| == 4 + |Encode(e, b[3..])|;
      assert (n + 2) / 3 == (n - 3 + 2) / 3 + 1;
      assert (4 * n + 2) / 3 == (4 * (n - 3) + 2) / 3 + 4;
    }
  }

  /** The characters an encoding may hold: the alphabet, and padding only in
      the last two places. */
  predicate OutputCharacters(e: Engine, r: string)
  {
    forall i | 0 <= i < |r| :: InAlphabet(e, r[i]) || (e.Padded() && r[i] == '=' && i >= |r| - 2)
  }

  /** Every output character is in the engine's alphabet, except the `=` padding
      of the standard engine, which only ever fills the last two places. */
  lemma {:induction false} EncodedCharacters(e: Engine, b: seq<byte>)
    ensures OutputCharacters(e, Encode(e, b))
    decreases |b|
  {
    var r := Encode(e, b);
    if 0 < |b| < 3 {
      var p := PartialSymbols(e, b);
      forall i | 0 <= i < |p| ensures InAlphabet(e, p[i]) {
        ValueOfSymbol(e, Value(e, p[i]).value);
      }
      assert forall i | 0 <= i < |p| :: InAlphabet(e, r[i]);
      assert forall i | |p| <= i < |r| :: r[i] == '=' && i >= |r| - 2;
    } else if |b| >= 3 {
      var g := GroupSymbols(e, b[0], b[1], b[2]);
      var rest := Encode(e, b[3..]);
      EncodedCharacters(e, b[3..]);
      ValueOfSymbol(e, b[0] / 4);
      ValueOfSymbol(e, b[0] % 4 * 16 + b[1] / 16);
      ValueOfSymbol(e, b[1] % 16 * 4 + b[2] / 64);
      ValueOfSymbol(e, b[2] % 64);
      assert r == g + rest;
      assert forall k | 0 <= k < 4 :: InAlphabet(e, g[k]);
      forall i | 0 <= i < |r|
        ensures InAlphabet(e, r[i]) || (e.Padded() && r[i] == '=' && i >= |r| - 2)
      {
        if i >= 4 {
          var k := i - 4;
          assert r[i] == rest[k] && |r| == |rest| + 4;
          assert InAlphabet(e, rest[k]) || (e.Padded() && rest[k] == '=' && k >= |rest| - 2);
        } else {
          assert r[i] == g[i];
        }
      }
    }
  }

  /** The URL-safe engine writes only letters, digits, `-` and `_`: never `+`,
      `/` or `=`. */
  lemma UrlSafeCharacters(b: seq<byte>)
    ensures var r := Encode(UrlSafeNoPad, b);
      forall i | 0 <= i < |r| ::
        && ('A' <= r[i] <= 'Z' || 'a' <= r[i] <= 'z' || '0' <= r[i] <= '9' || r[i] == '-' || r[i] == '_')
        && r[i] !in {'+', '/', '='}
  {
    EncodedCharacters(UrlSafeNoPad, b);
  }

  /** Decoding fails on any character outside the engine's alphabet (for the
      standard engine, other than its `=` padding). */
  lemma RejectsForeignCharacter(e: Engine, s: string, i: int)
    requires 0 <= i < |s| && !InAlphabet(e, s[i]) && !(e.Padded() && s[i] == '=')
    ensures Decode(e, s).Err?
  {
    if Decode(e, s).Ok? {
      EncodeDecode(e, s);
      EncodedCharacters(e, Decode(e, s).value);
    }
  }

  /** Encoded text is ASCII. */
  lemma EncodedIsAscii(e: Engine, b: seq<byte>)
    ensures forall i | 0 <= i < |Encode(e, b)| :: Encode(e, b)[i] as int < 0x80
  {
    EncodedCharacters(e, b);
  }
}
