/** `text sign`, `text verify` and `text generate`: keyed BLAKE3 hashes and
    Ed25519 signatures over the bytes of an input, keys read from files, and
    signatures carried as URL-safe unpadded base64. */
module TextSign {
  import opened Common
  import Utf8
  import Base64
  import Io
  import GenPass
  import CliText

  /** The cryptography the tool calls but does not implement, as functions:
      - `keyedHash(key, data)`: `blake3::keyed_hash`;
      - `verifyingKeyOf(sk)`: the encoded public key of the secret key `sk`;
      - `sign(sk, data)`: the encoded Ed25519 signature of `data` under `sk`;
      - `isVerifyingKey(pk)`: `VerifyingKey::from_bytes` accepts `pk`;
      - `verify(pk, data, sig)`: `VerifyingKey::verify` accepts `sig`. */
  datatype Primitives = Primitives(
    keyedHash: (seq<byte>, seq<byte>) -> seq<byte>,
    verifyingKeyOf: seq<byte> -> seq<byte>,
    sign: (seq<byte>, seq<byte>) -> seq<byte>,
    isVerifyingKey: seq<byte> -> bool,
    verify: (seq<byte>, seq<byte>, seq<byte>) -> bool)

  /** What the algorithms guarantee and the proofs rely on: BLAKE3 hashes are 32
      bytes; a 32-byte secret key has a 32-byte public key that decodes; and a
      signature is 64 bytes and verifies under the signer's public key
      (RFC 8032). */
  ghost predicate Lawful(p: Primitives)
  {
    && (forall k, d | |k| == 32 :: |p.keyedHash(k, d)| == 32)
    && (forall sk | |sk| == 32 :: |p.verifyingKeyOf(sk)| == 32 && p.isVerifyingKey(p.verifyingKeyOf(sk)))
    && (forall sk, d | |sk| == 32 :: |p.sign(sk, d)| == 64)
    && (forall sk, d | |sk| == 32 :: p.verify(p.verifyingKeyOf(sk), d, p.sign(sk, d)))
  }

  /** A `[u8; 32]`. */
  type Key32 = k: seq<byte> | |k| == 32 witness seq(32, _ => 0)

  /** The message of the slice panic in `Blake3::try_new`. */
  const SLICE_PANIC: string := "range end index 32 out of range"

  /** A shared BLAKE3 key. */
  datatype Blake3 = Blake3(key: Key32)
  {
    /** `try_new`: keeps the first 32 bytes, so a newline after the key does
        not matter; a shorter key makes `&key[..32]` panic. */
    static function TryNew(key: seq<byte>): (r: Result<Blake3>)
      ensures |key| < 32 ==> r == Err(Panic(SLICE_PANIC))
      ensures |key| >= 32 ==> r.Ok? && r.value.key == key[..32]
    {
      if |key| < 32 then Err(Panic(SLICE_PANIC)) else Ok(Blake3(key[..32]))
    }

    /** `load`: the key file read whole, then `try_new`. */
    static function Load(env: Io.Env, path: string): (r: Result<Blake3>)
      ensures Io.ReadFile(env, path).Err? ==> r == Err(Io.ReadFile(env, path).error)
      ensures r.Ok? <==> Io.ReadFile(env, path).Ok? && |Io.ReadFile(env, path).value| >= 32
      ensures r.Ok? ==> r.value.key == env.files[path].content[..32]
    {
      var bytes :- Io.ReadFile(env, path);
      TryNew(bytes)
    }

    /** The signature of `data`. */
    function Signature(p: Primitives, data: seq<byte>): seq<byte>
    {
      p.keyedHash(key, data)
    }

    /** `verify`'s comparison. */
    predicate Accepts(p: Primitives, data: seq<byte>, sig: seq<byte>)
    {
      Signature(p, data) == sig
    }

    /** `TextSign::sign`: reads the reader to its end and hashes what it read. */
    method Sign(p: Primitives, reader: Io.Reader) returns (r: Result<seq<byte>>)
      modifies reader
      ensures reader.readable ==> r == Ok(Signature(p, old(reader.rest)))
      ensures !reader.readable ==> r == Err(IoFailure)
      ensures reader.readable ==> reader.rest == []
      ensures !reader.readable ==> reader.rest == old(reader.rest)
    {
      var buf :- reader.ReadToEnd([]);
      assert buf == old(reader.rest);
      r := Ok(p.keyedHash(key, buf));
    }

    /** `TextVerify::verify`: hashes what the reader holds and compares. */
    method Verify(p: Primitives, reader: Io.Reader, sig: seq<byte>) returns (r: Result<bool>)
      modifies reader
      ensures reader.readable ==> r == Ok(Accepts(p, old(reader.rest), sig))
      ensures !reader.readable ==> r == Err(IoFailure)
      ensures reader.readable ==> reader.rest == []
      ensures !reader.readable ==> reader.rest == old(reader.rest)
    {
      var buf :- reader.ReadToEnd([]);
      assert buf == old(reader.rest);
      r := Ok(p.keyedHash(key, buf) == sig);
    }

    /** `KeyGenerator::generate`: a 32-character password with every class, as
        bytes. The key is printable and loads back unchanged. */
    static method Generate() returns (r: Result<seq<seq<byte>>>)
      ensures r.Ok? && |r.value| == 1 && |r.value[0]| == 32
      ensures forall i | 0 <= i < 32 :: r.value[0][i] in GenPass.Pool(true, true, true, true)
      ensures HasByteOf(r.value[0], GenPass.UPPER) && HasByteOf(r.value[0], GenPass.LOWER)
      ensures HasByteOf(r.value[0], GenPass.NUMBER) && HasByteOf(r.value[0], GenPass.SYMBOL)
      ensures TryNew(r.value[0]) == Ok(Blake3(r.value[0]))
    {
      // The `?` after `process_genpass` never fires: 32 characters leave room
      // for all four classes.
      var password := GenPass.ProcessGenpass(32, true, true, true, true);
      var key := password.value;
      Utf8.EncodeAscii(key);
      var bytes := Utf8.Encode(key);
      assert forall i | 0 <= i < 32 :: GenPass.Drawn(key[i], GenPass.Pool(true, true, true, true));
      assert bytes[..32] == bytes;
      CoveredBytes(key, GenPass.UPPER);
      CoveredBytes(key, GenPass.LOWER);
      CoveredBytes(key, GenPass.NUMBER);
      CoveredBytes(key, GenPass.SYMBOL);
      r := Ok([bytes]);
    }
  }

  /** Some byte of `key` belongs to `alphabet`. */
  predicate HasByteOf(key: seq<byte>, alphabet: seq<byte>)
  {
    exists i | 0 <= i < |key| :: key[i] in alphabet
  }

  /** ASCII text that has a character of a class keeps a byte of it once encoded. */
  lemma CoveredBytes(text: string, alphabet: seq<byte>)
    requires Utf8.IsAscii(text) && GenPass.Covers(text, alphabet)
    ensures HasByteOf(Utf8.Encode(text), alphabet)
  {
    var i :| 0 <= i < |text| && GenPass.Drawn(text[i], alphabet);
    Utf8.EncodeAscii(text);
    assert Utf8.Encode(text)[i] in alphabet;
  }

  /** An Ed25519 secret key. */
  datatype Ed25519Signer = Ed25519Signer(key: Key32)
  {
    /** `try_new`: exactly 32 bytes. */
    static function TryNew(key: seq<byte>): (r: Result<Ed25519Signer>)
      ensures r.Ok? <==> |key| == 32
      ensures r.Ok? ==> r.value.key == key
      ensures r.Err? ==> r.error == InvalidKeyLength
    {
      if |key| != 32 then Err(InvalidKeyLength) else Ok(Ed25519Signer(key))
    }

    /** `load`: the key file read whole, then `try_new`. */
    static function Load(env: Io.Env, path: string): (r: Result<Ed25519Signer>)
      ensures Io.ReadFile(env, path).Err? ==> r == Err(Io.ReadFile(env, path).error)
      ensures r.Ok? <==> Io.ReadFile(env, path).Ok? && |Io.ReadFile(env, path).value| == 32
      ensures r.Ok? ==> r.value.key == env.files[path].content
    {
      var bytes :- Io.ReadFile(env, path);
      TryNew(bytes)
    }

    function Signature(p: Primitives, data: seq<byte>): seq<byte>
    {
      p.sign(key, data)
    }

    /** `TextSign::sign`. */
    method Sign(p: Primitives, reader: Io.Reader) returns (r: Result<seq<byte>>)
      modifies reader
      ensures reader.readable ==> r == Ok(Signature(p, old(reader.rest)))
      ensures !reader.readable ==> r == Err(IoFailure)
      ensures reader.readable ==> reader.rest == []
      ensures !reader.readable ==> reader.rest == old(reader.rest)
    {
      var buf :- reader.ReadToEnd([]);
      assert buf == old(reader.rest);
      r := Ok(p.sign(key, buf));
    }

    /** `KeyGenerator::generate`: a random secret key and its public key. */
    static method Generate(p: Primitives) returns (r: Result<seq<seq<byte>>>)
      ensures r.Ok? && |r.value| == 2 && |r.value[0]| == 32
      ensures r.value[1] == p.verifyingKeyOf(r.value[0])
      ensures TryNew(r.value[0]) == Ok(Ed25519Signer(r.value[0]))
      ensures Lawful(p) ==> Ed25519Verifier.TryNew(p, r.value[1]) == Ok(Ed25519Verifier(r.value[1]))
    {
      var sk := RandomBytes(32);
      r := Ok([sk, p.verifyingKeyOf(sk)]);
    }
  }

  /** An Ed25519 public key. */
  datatype Ed25519Verifier = Ed25519Verifier(key: Key32)
  {
    /** `try_new`: exactly 32 bytes that decode as a public key. */
    static function TryNew(p: Primitives, key: seq<byte>): (r: Result<Ed25519Verifier>)
      ensures r.Ok? <==> |key| == 32 && p.isVerifyingKey(key)
      ensures r.Ok? ==> r.value.key == key
      ensures |key| != 32 ==> r == Err(InvalidKeyLength)
      ensures |key| == 32 && !p.isVerifyingKey(key) ==> r == Err(InvalidPublicKey)
    {
      if |key| != 32 then Err(InvalidKeyLength)
      else if !p.isVerifyingKey(key) then Err(InvalidPublicKey)
      else Ok(Ed25519Verifier(key))
    }

    /** `load`: the key file read whole, then `try_new`. */
    static function Load(p: Primitives, env: Io.Env, path: string): (r: Result<Ed25519Verifier>)
      ensures Io.ReadFile(env, path).Err? ==> r == Err(Io.ReadFile(env, path).error)
      ensures r.Ok? <==> Io.ReadFile(env, path).Ok? && |Io.ReadFile(env, path).value| == 32 &&
                         p.isVerifyingKey(Io.ReadFile(env, path).value)
      ensures r.Ok? ==> r.value.key == env.files[path].content
    {
      var bytes :- Io.ReadFile(env, path);
      TryNew(p, bytes)
    }

    /** `verify` after the read: a signature that is not 64 bytes is an error,
        otherwise the answer of `VerifyingKey::verify`. */
    function Check(p: Primitives, data: seq<byte>, sig: seq<byte>): (r: Result<bool>)
      ensures r.Err? <==> |sig| != 64
      ensures r.Err? ==> r.error == InvalidSignatureLength
      ensures r.Ok? ==> r.value == p.verify(key, data, sig)
    {
      if |sig| != 64 then Err(InvalidSignatureLength) else Ok(p.verify(key, data, sig))
    }

    /** `TextVerify::verify`: the reader is read before the length is checked. */
    method Verify(p: Primitives, reader: Io.Reader, sig: seq<byte>) returns (r: Result<bool>)
      modifies reader
      ensures reader.readable ==> r == Check(p, old(reader.rest), sig)
      ensures !reader.readable ==> r == Err(IoFailure)
      ensures reader.readable ==> reader.rest == []
      ensures !reader.readable ==> reader.rest == old(reader.rest)
    {
      var buf :- reader.ReadToEnd([]);
      assert buf == old(reader.rest);
      if |sig| != 64 {
        return Err(InvalidSignatureLength);
      }
      r := Ok(p.verify(key, buf, sig));
    }
  }

  /** `OsRng`: `n` bytes nobody can predict. */
  method RandomBytes(n: nat) returns (r: seq<byte>)
    ensures |r| == n
  {
    r := [];
    while |r| < n
      invariant |r| <= n
    {
      var b: byte :| true;
      r := r + [b];
    }
  }

  /** `process_text_generate`: one key file's content for BLAKE3, a secret and
      a public key for Ed25519. */
  method ProcessTextGenerate(p: Primitives, format: CliText.TextSignFormat) returns (r: Result<seq<seq<byte>>>)
    ensures r.Ok?
    ensures format.Blake3? ==> |r.value| == 1 && |r.value[0]| == 32 && Blake3.TryNew(r.value[0]) == Ok(Blake3(r.value[0]))
    ensures format.Ed25519? ==>
      && |r.value| == 2 && |r.value[0]| == 32
      && Ed25519Signer.TryNew(r.value[0]) == Ok(Ed25519Signer(r.value[0]))
      && r.value[1] == p.verifyingKeyOf(r.value[0])
      && (Lawful(p) ==> Ed25519Verifier.TryNew(p, r.value[1]) == Ok(Ed25519Verifier(r.value[1])))
  {
    match format {
      case Blake3 =>
        r := Blake3.Generate();
      case Ed25519 =>
        r := Ed25519Signer.Generate(p);
    }
  }

  /** The signature `text sign` computes, before it is encoded. */
  function Signed(p: Primitives, env: Io.Env, s: Io.Stream, key: string, format: CliText.TextSignFormat): Result<seq<byte>>
  {
    match format
    case Blake3 =>
      var signer :- Blake3.Load(env, key);
      var data :- Io.ReadAll(s);
      Ok(signer.Signature(p, data))
    case Ed25519 =>
      var signer :- Ed25519Signer.Load(env, key);
      var data :- Io.ReadAll(s);
      Ok(signer.Signature(p, data))
  }

  /** What `process_text_sign` returns: the input is opened, then the key
      loaded, then the input read and signed, and the signature encoded. */
  function SignOutput(p: Primitives, env: Io.Env, input: string, key: string, format: CliText.TextSignFormat): Result<string>
  {
    var s :- Io.GetRead(env, input);
    var signed :- Signed(p, env, s, key, format);
    Ok(Base64.Encode(Base64.UrlSafeNoPad, signed))
  }

  /** What `process_text_verify` returns: the input is opened, the signature
      decoded, then the key loaded, then the input read and checked. */
  function VerifyOutcome(p: Primitives, env: Io.Env, input: string, key: string,
                         format: CliText.TextSignFormat, signature: string): Result<bool>
  {
    var s :- Io.GetRead(env, input);
    var sig :- Base64.Decode(Base64.UrlSafeNoPad, signature);
    match format
    case Blake3 =>
      var verifier :- Blake3.Load(env, key);
      var data :- Io.ReadAll(s);
      Ok(verifier.Accepts(p, data, sig))
    case Ed25519 =>
      var verifier :- Ed25519Verifier.Load(p, env, key);
      var data :- Io.ReadAll(s);
      verifier.Check(p, data, sig)
  }

  /** `process_text_sign`. */
  method ProcessTextSign(p: Primitives, env: Io.Env, input: string, key: string, format: CliText.TextSignFormat)
    returns (r: Result<string>)
    ensures r == SignOutput(p, env, input, key, format)
  {
    var stream :- Io.GetRead(env, input);
    var reader := new Io.Reader(stream);
    var signed: seq<byte>;
    match format {
      case Blake3 =>
        var signer :- Blake3.Load(env, key);
        signed :- signer.Sign(p, reader);
      case Ed25519 =>
        var signer :- Ed25519Signer.Load(env, key);
        signed :- signer.Sign(p, reader);
    }
    r := Ok(Base64.Encode(Base64.UrlSafeNoPad, signed));
  }

  /** `process_text_verify`. */
  method ProcessTextVerify(p: Primitives, env: Io.Env, input: string, key: string,
                           format: CliText.TextSignFormat, signature: string)
    returns (r: Result<bool>)
    ensures r == VerifyOutcome(p, env, input, key, format, signature)
  {
    var stream :- Io.GetRead(env, input);
    var reader := new Io.Reader(stream);
    var sig :- Base64.Decode(Base64.UrlSafeNoPad, signature);
    match format {
      case Blake3 =>
        var verifier :- Blake3.Load(env, key);
        r := verifier.Verify(p, reader, sig);
      case Ed25519 =>
        var verifier :- Ed25519Verifier.Load(p, env, key);
        r := verifier.Verify(p, reader, sig);
    }
  }

  /** A BLAKE3 key file may hold anything after the key, such as a newline; an
      Ed25519 secret key file may not. */
  lemma TrailingBytesAfterKey(k: seq<byte>, tail: seq<byte>)
    requires |k| == 32 && tail != []
    ensures Blake3.TryNew(k + tail) == Ok(Blake3(k))
    ensures Ed25519Signer.TryNew(k + tail) == Err(InvalidKeyLength)
  {
    assert (k + tail)[..32] == k;
  }

  /** `text sign` succeeds exactly when the input opens and reads and the key
      loads; it reports a failure to open the input before any key problem,
      and a key problem before a failure to read. */
  lemma SignOutcome(p: Primitives, env: Io.Env, input: string, key: string, format: CliText.TextSignFormat)
    ensures Io.GetRead(env, input).Err? ==> SignOutput(p, env, input, key, format) == Err(Io.GetRead(env, input).error)
    ensures Io.GetRead(env, input).Ok? && format.Blake3? && Blake3.Load(env, key).Err? ==>
      SignOutput(p, env, input, key, format) == Err(Blake3.Load(env, key).error)
    ensures Io.GetRead(env, input).Ok? && format.Ed25519? && Ed25519Signer.Load(env, key).Err? ==>
      SignOutput(p, env, input, key, format) == Err(Ed25519Signer.Load(env, key).error)
    ensures SignOutput(p, env, input, key, format).Ok? <==>
      && Io.GetRead(env, input).Ok? && Io.GetRead(env, input).value.readable
      && (format.Blake3? ==> Blake3.Load(env, key).Ok?)
      && (format.Ed25519? ==> Ed25519Signer.Load(env, key).Ok?)
  {
  }

  /** A signature is 43 characters for BLAKE3 (32 bytes) and 86 for Ed25519
      (64 bytes), and uses only the URL-safe alphabet. */
  lemma SignatureText(p: Primitives, env: Io.Env, input: string, key: string, format: CliText.TextSignFormat)
    requires Lawful(p)
    requires SignOutput(p, env, input, key, format).Ok?
    ensures var out := SignOutput(p, env, input, key, format).value;
      && |out| == (if format.Blake3? then 43 else 86)
      && forall i | 0 <= i < |out| :: Base64.InAlphabet(Base64.UrlSafeNoPad, out[i])
  {
    var s := Io.GetRead(env, input).value;
    var signed := Signed(p, env, s, key, format).value;
    assert |signed| == (if format.Blake3? then 32 else 64);
    Base64.EncodedLength(Base64.UrlSafeNoPad, signed);
    Base64.EncodedCharacters(Base64.UrlSafeNoPad, signed);
  }

  /** The signature is decoded before the key file is looked at: one that is not
      URL-safe unpadded base64 is refused whatever the key. */
  lemma VerifyDecodesSignatureFirst(p: Primitives, env: Io.Env, input: string, key: string,
                                    format: CliText.TextSignFormat, signature: string)
    requires Io.GetRead(env, input).Ok?
    requires Base64.Decode(Base64.UrlSafeNoPad, signature).Err?
    ensures VerifyOutcome(p, env, input, key, format, signature) == Err(Base64Decode)
  {
  }

  /** Once everything loads, BLAKE3 verification answers whether the decoded
      signature is the keyed hash of the input, and never fails; Ed25519
      verification fails on a signature that is not 64 bytes and otherwise
      answers what the public key says. */
  lemma VerifyAnswer(p: Primitives, env: Io.Env, input: string, key: string,
                     format: CliText.TextSignFormat, signature: string)
    requires Io.GetRead(env, input).Ok? && Io.GetRead(env, input).value.readable
    requires Base64.Decode(Base64.UrlSafeNoPad, signature).Ok?
    ensures var data := Io.GetRead(env, input).value.data;
      var sig := Base64.Decode(Base64.UrlSafeNoPad, signature).value;
      var outcome := VerifyOutcome(p, env, input, key, format, signature);
      && (format.Blake3? && Blake3.Load(env, key).Ok? ==>
            outcome == Ok(p.keyedHash(Blake3.Load(env, key).value.key, data) == sig))
      && (format.Ed25519? && Ed25519Verifier.Load(p, env, key).Ok? ==>
            && (outcome.Err? <==> |sig| != 64)
            && (outcome.Err? ==> outcome.error == InvalidSignatureLength)
            && (outcome.Ok? ==> outcome.value == p.verify(Ed25519Verifier.Load(p, env, key).value.key, data, sig)))
  {
  }

  /** Whatever `text sign --format blake3` prints, `text verify` with the same
      input and key accepts. */
  lemma Blake3SignThenVerify(p: Primitives, env: Io.Env, input: string, key: string)
    requires SignOutput(p, env, input, key, CliText.Blake3).Ok?
    ensures VerifyOutcome(p, env, input, key, CliText.Blake3, SignOutput(p, env, input, key, CliText.Blake3).value) == Ok(true)
  {
    var s := Io.GetRead(env, input).value;
    var signed := Signed(p, env, s, key, CliText.Blake3).value;
    Base64.DecodeEncode(Base64.UrlSafeNoPad, signed);
  }

  /** Whatever `text sign --format ed25519` prints with a secret key, `text
      verify` with the same input and the matching public key accepts. */
  lemma Ed25519SignThenVerify(p: Primitives, env: Io.Env, input: string, sk: string, pk: string)
    requires Lawful(p)
    requires SignOutput(p, env, input, sk, CliText.Ed25519).Ok?
    requires pk in env.files && env.files[pk] == Io.RegularFile(p.verifyingKeyOf(Io.ReadFile(env, sk).value))
    ensures VerifyOutcome(p, env, input, pk, CliText.Ed25519, SignOutput(p, env, input, sk, CliText.Ed25519).value) == Ok(true)
  {
    var s := Io.GetRead(env, input).value;
    var signer := Ed25519Signer.Load(env, sk).value;
    var signed := Signed(p, env, s, sk, CliText.Ed25519).value;
    assert signed == p.sign(signer.key, s.data);
    Base64.DecodeEncode(Base64.UrlSafeNoPad, signed);
    assert Ed25519Verifier.Load(p, env, pk) == Ok(Ed25519Verifier(p.verifyingKeyOf(signer.key)));
  }

  /** A BLAKE3 signature made with one key is refused under any key whose hash
      of the input differs, for instance a different key of a hash without
      collisions. */
  lemma Blake3RejectsOtherKey(p: Primitives, env: Io.Env, input: string, key: string, other: string)
    requires SignOutput(p, env, input, key, CliText.Blake3).Ok?
    requires Blake3.Load(env, other).Ok?
    requires var data := Io.GetRead(env, input).value.data;
      p.keyedHash(Blake3.Load(env, other).value.key, data) != p.keyedHash(Blake3.Load(env, key).value.key, data)
    ensures VerifyOutcome(p, env, input, other, CliText.Blake3, SignOutput(p, env, input, key, CliText.Blake3).value) == Ok(false)
  {
    var s := Io.GetRead(env, input).value;
    var signed := Signed(p, env, s, key, CliText.Blake3).value;
    Base64.DecodeEncode(Base64.UrlSafeNoPad, signed);
  }
}
