/** `text generate`: makes a key (or key pair) and writes it into the output
    directory, `blake3.txt` for BLAKE3 and `ed25519.sk` then `ed25519.pk` for
    Ed25519. */
module CliTextKeygen {
  import opened Common
  import Io
  import CliText
  import TextSign

  const BLAKE3_FILE: string := "blake3.txt"
  const SECRET_KEY_FILE: string := "ed25519.sk"
  const PUBLIC_KEY_FILE: string := "ed25519.pk"

  /** The two Ed25519 files never land on the same path, so the public key
      cannot overwrite the secret one. */
  lemma KeyFilesDiffer(output: string)
    ensures Io.Join(output, SECRET_KEY_FILE) != Io.Join(output, PUBLIC_KEY_FILE)
  {
    var a, b := Io.Join(output, SECRET_KEY_FILE), Io.Join(output, PUBLIC_KEY_FILE);
    assert a[|a| - |SECRET_KEY_FILE|..] == SECRET_KEY_FILE;
    assert b[|b| - |PUBLIC_KEY_FILE|..] == PUBLIC_KEY_FILE;
    assert a[|a| - 2] == 's' && b[|b| - 2] == 'p';
  }

  /** `TextKeyGenerateOpts::execute`. `keys` is what `process_text_generate`
      produced. A write that fails stops the command, so after a failed
      secret-key write no public key is written. */
  method Execute(p: TextSign.Primitives, fs: Io.FileSystem, format: CliText.TextSignFormat, output: string)
    returns (r: Result<()>, ghost keys: seq<seq<byte>>)
    modifies fs
    ensures format.Blake3? ==>
      && |keys| == 1 && |keys[0]| == 32
      && TextSign.Blake3.TryNew(keys[0]) == Ok(TextSign.Blake3(keys[0]))
    ensures format.Ed25519? ==>
      && |keys| == 2 && |keys[0]| == 32
      && TextSign.Ed25519Signer.TryNew(keys[0]) == Ok(TextSign.Ed25519Signer(keys[0]))
      && keys[1] == p.verifyingKeyOf(keys[0])
    ensures format.Blake3? ==>
      var path := Io.Join(output, BLAKE3_FILE);
      if Io.Writable(old(fs.files), path)
      then r == Ok(()) && fs.files == old(fs.files)[path := Io.RegularFile(keys[0])]
      else r == Err(IoFailure) && fs.files == old(fs.files)
    ensures format.Ed25519? ==>
      var sk, pk := Io.Join(output, SECRET_KEY_FILE), Io.Join(output, PUBLIC_KEY_FILE);
      if !Io.Writable(old(fs.files), sk) then
        r == Err(IoFailure) && fs.files == old(fs.files)
      else if !Io.Writable(old(fs.files), pk) then
        r == Err(IoFailure) && fs.files == old(fs.files)[sk := Io.RegularFile(keys[0])]
      else
        r == Ok(()) && fs.files == old(fs.files)[sk := Io.RegularFile(keys[0])][pk := Io.RegularFile(keys[1])]
  {
    var generated := TextSign.ProcessTextGenerate(p, format);
    var key := generated.value;
    keys := key;
    match format {
      case Blake3 =>
        r := fs.Write(Io.Join(output, BLAKE3_FILE), key[0]);
      case Ed25519 =>
        var sk, pk := Io.Join(output, SECRET_KEY_FILE), Io.Join(output, PUBLIC_KEY_FILE);
        KeyFilesDiffer(output);
        var written := fs.Write(sk, key[0]);
        if written.Err? {
          return Err(written.error), keys;
        }
        r := fs.Write(pk, key[1]);
    }
  }

  /** The BLAKE3 key file `text generate` writes is one `text sign` and `text
      verify` load, and they agree on every readable input. */
  lemma Blake3KeyFileWorks(p: TextSign.Primitives, env: Io.Env, input: string, output: string, key: seq<byte>)
    requires |key| == 32
    requires Io.Join(output, BLAKE3_FILE) in env.files
    requires env.files[Io.Join(output, BLAKE3_FILE)] == Io.RegularFile(key)
    requires Io.GetRead(env, input).Ok? && Io.GetRead(env, input).value.readable
    ensures var path := Io.Join(output, BLAKE3_FILE);
      && TextSign.SignOutput(p, env, input, path, CliText.Blake3).Ok?
      && TextSign.VerifyOutcome(p, env, input, path, CliText.Blake3,
                                TextSign.SignOutput(p, env, input, path, CliText.Blake3).value) == Ok(true)
  {
    var path := Io.Join(output, BLAKE3_FILE);
    assert TextSign.Blake3.Load(env, path).Ok?;
    TextSign.Blake3SignThenVerify(p, env, input, path);
  }

  /** A signature made with the `ed25519.sk` that `text generate` writes is
      accepted under the `ed25519.pk` written beside it. */
  lemma Ed25519KeyFilesWork(p: TextSign.Primitives, env: Io.Env, input: string, output: string, sk: seq<byte>)
    requires TextSign.Lawful(p)
    requires |sk| == 32
    requires Io.Join(output, SECRET_KEY_FILE) in env.files && Io.Join(output, PUBLIC_KEY_FILE) in env.files
    requires env.files[Io.Join(output, SECRET_KEY_FILE)] == Io.RegularFile(sk)
    requires env.files[Io.Join(output, PUBLIC_KEY_FILE)] == Io.RegularFile(p.verifyingKeyOf(sk))
    requires Io.GetRead(env, input).Ok? && Io.GetRead(env, input).value.readable
    ensures var skPath, pkPath := Io.Join(output, SECRET_KEY_FILE), Io.Join(output, PUBLIC_KEY_FILE);
      && TextSign.SignOutput(p, env, input, skPath, CliText.Ed25519).Ok?
      && TextSign.VerifyOutcome(p, env, input, pkPath, CliText.Ed25519,
                                TextSign.SignOutput(p, env, input, skPath, CliText.Ed25519).value) == Ok(true)
  {
    var skPath, pkPath := Io.Join(output, SECRET_KEY_FILE), Io.Join(output, PUBLIC_KEY_FILE);
    assert TextSign.Ed25519Signer.Load(env, skPath).Ok?;
    TextSign.Ed25519SignThenVerify(p, env, input, skPath, pkPath);
  }
}
