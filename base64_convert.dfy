/** `base64 encode` and `base64 decode`: read the input (a file, or standard
    input for `-`), convert it with the engine the format selects, and print the
    result on a line of its own. The printed line, newline included, is the
    `Ok` value here. */
module Base64Convert {
  import opened Common
  import Utf8
  import Base64
  import Io
  import CliBase64

  /** `STANDARD` for `standard`, `URL_SAFE_NO_PAD` for `urlsafe`. */
  function EngineOf(f: CliBase64.Base64Format): (e: Base64.Engine)
    ensures e.Padded() <==> f.Standard?
  {
    match f
    case Standard => Base64.Standard
    case UrlSafe => Base64.UrlSafeNoPad
  }

  /** `char::is_whitespace`: the Unicode `White_Space` property. No whitespace
      character belongs to either base64 alphabet or is the padding, so trimming
      never removes part of the encoded text. */
  predicate IsWhitespace(c: char)
    ensures IsWhitespace(c) ==> c != '=' && !Base64.InAlphabet(Base64.Standard, c) &&
                                !Base64.InAlphabet(Base64.UrlSafeNoPad, c)
  {
    var n := c as int;
    (0x09 <= n <= 0x0D) || n == 0x20 || n == 0x85 || n == 0xA0 || n == 0x1680 ||
    (0x2000 <= n <= 0x200A) || n == 0x2028 || n == 0x2029 || n == 0x202F ||
    n == 0x205F || n == 0x3000
  }

  predicate AllWhitespace(s: string)
  {
    forall i | 0 <= i < |s| :: IsWhitespace(s[i])
  }

  /** `str::trim_start`: drops the leading whitespace. */
  function TrimStart(s: string): (r: string)
    ensures |r| <= |s|
  {
    if s != [] && IsWhitespace(s[0]) then TrimStart(s[1..]) else s
  }

  /** `str::trim_end`: drops the trailing whitespace. */
  function TrimEnd(s: string): (r: string)
    ensures |r| <= |s|
  {
    if s != [] && IsWhitespace(s[|s| - 1]) then TrimEnd(s[..|s| - 1]) else s
  }

  /** `str::trim`. */
  function Trim(s: string): (r: string)
    ensures |r| <= |s|
  {
    TrimEnd(TrimStart(s))
  }

  /** What `trim_start` keeps is a suffix that does not start with whitespace,
      and what it drops is all whitespace. */
  lemma {:induction false} TrimStartShape(s: string)
    ensures var r := TrimStart(s);
      && r == s[|s| - |r|..]
      && AllWhitespace(s[..|s| - |r|])
      && (r == [] || !IsWhitespace(r[0]))
    decreases |s|
  {
    if s != [] && IsWhitespace(s[0]) {
      TrimStartShape(s[1..]);
      var r := TrimStart(s);
      assert s[..|s| - |r|] == [s[0]] + s[1..][..|s| - 1 - |r|];
    }
  }

  /** What `trim_end` keeps is a prefix that does not end with whitespace, and
      what it drops is all whitespace. */
  lemma {:induction false} TrimEndShape(s: string)
    ensures var r := TrimEnd(s);
      && r == s[..|r|]
      && AllWhitespace(s[|r|..])
      && (r == [] || !IsWhitespace(r[|r| - 1]))
    decreases |s|
  {
    if s != [] && IsWhitespace(s[|s| - 1]) {
      var p := s[..|s| - 1];
      TrimEndShape(p);
      var r := TrimEnd(s);
      assert s[|r|..] == p[|r|..] + [s[|s| - 1]];
    }
  }

  /** `trim` keeps a piece of the text that neither starts nor ends with
      whitespace, between two runs of whitespace. */
  lemma TrimShape(s: string)
    ensures var r := Trim(s);
      exists i | 0 <= i <= |s| - |r| ::
        && r == s[i..i + |r|] && AllWhitespace(s[..i]) && AllWhitespace(s[i + |r|..])
    ensures var r := Trim(s);
      r == [] || (!IsWhitespace(r[0]) && !IsWhitespace(r[|r| - 1]))
  {
    var s1 := TrimStart(s);
    var r := TrimEnd(s1);
    TrimStartShape(s);
    TrimEndShape(s1);
    var i := |s| - |s1|;
    assert r == s[i..i + |r|];
    assert s[i + |r|..] == s1[|r|..];
    if r != [] {
      assert r[0] == s1[0];
    }
  }

  lemma {:induction false} TrimStartPadded(w: string, t: string)
    requires AllWhitespace(w)
    requires t == [] || !IsWhitespace(t[0])
    ensures TrimStart(w + t) == t
    decreases |w|
  {
    if w != [] {
      assert (w + t)[1..] == w[1..] + t;
      TrimStartPadded(w[1..], t);
    }
  }

  lemma {:induction false} TrimEndPadded(t: string, w: string)
    requires AllWhitespace(w)
    requires t == [] || !IsWhitespace(t[|t| - 1])
    ensures TrimEnd(t + w) == t
    decreases |w|
  {
    if w != [] {
      assert (t + w)[..|t + w| - 1] == t + w[..|w| - 1];
      TrimEndPadded(t, w[..|w| - 1]);
    }
  }

  /** Trimming removes exactly the whitespace around the text and nothing of it. */
  lemma TrimPadded(w1: string, t: string, w2: string)
    requires AllWhitespace(w1) && AllWhitespace(w2)
    requires t == [] || (!IsWhitespace(t[0]) && !IsWhitespace(t[|t| - 1]))
    ensures Trim(w1 + t + w2) == t
  {
    if t == [] {
      assert AllWhitespace(w2 + t);
      TrimStartPadded(w1 + w2, t);
      assert w1 + t + w2 == w1 + w2 + t;
    } else {
      TrimStartPadded(w1, t + w2);
      assert w1 + t + w2 == w1 + (t + w2);
    }
    TrimEndPadded(t, w2);
  }

  /** `String::from_utf8`, with its error. */
  function FromUtf8(b: seq<byte>): (r: Result<string>)
    ensures r.Ok? <==> Utf8.Decode(b).Some?
    ensures r.Ok? ==> Utf8.Encode(r.value) == b
    ensures r.Err? ==> r.error == InvalidUtf8
  {
    match Utf8.Decode(b)
    case Some(text) =>
      Utf8.EncodeDecode(b);
      Ok(text)
    case None => Err(InvalidUtf8)
  }

  /** What `process_encode` prints for the input. */
  function EncodeOutput(env: Io.Env, input: string, f: CliBase64.Base64Format): Result<string>
  {
    var s :- Io.GetRead(env, input);
    var buf :- Io.ReadAll(s);
    Ok(Base64.Encode(EngineOf(f), buf) + "\n")
  }

  /** What `process_decode` prints once the input has been read as `text`. */
  function DecodeText(text: string, f: CliBase64.Base64Format): Result<string>
  {
    var decoded :- Base64.Decode(EngineOf(f), Trim(text));
    var out :- FromUtf8(decoded);
    Ok(out + "\n")
  }

  /** What `process_decode` prints for the input. */
  function DecodeOutput(env: Io.Env, input: string, f: CliBase64.Base64Format): Result<string>
  {
    var s :- Io.GetRead(env, input);
    var buf :- Io.ReadAll(s);
    var text :- FromUtf8(buf);
    DecodeText(text, f)
  }

  /** `process_encode`. */
  method ProcessEncode(env: Io.Env, input: string, format: CliBase64.Base64Format) returns (r: Result<string>)
    ensures r == EncodeOutput(env, input, format)
  {
    var stream :- Io.GetRead(env, input);
    var reader := new Io.Reader(stream);
    var buf :- reader.ReadToEnd([]);
    assert buf == stream.data;
    var encoded := Base64.Encode(EngineOf(format), buf);
    r := Ok(encoded + "\n");
  }

  /** `process_decode`. */
  method ProcessDecode(env: Io.Env, input: string, format: CliBase64.Base64Format) returns (r: Result<string>)
    ensures r == DecodeOutput(env, input, format)
  {
    var stream :- Io.GetRead(env, input);
    var reader := new Io.Reader(stream);
    var buf :- reader.ReadToString("");
    assert Utf8.Decode(stream.data) == Some(buf) by {
      var text := Utf8.Decode(stream.data).value;
      assert "" + text == text;
    }
    var trimmed := Trim(buf);
    var decoded :- Base64.Decode(EngineOf(format), trimmed);
    var text :- FromUtf8(decoded);
    r := Ok(text + "\n");
  }

  /** Encoding fails only when the input cannot be opened or read; otherwise it
      prints the encoding of the input's bytes on one line. */
  lemma EncodeOutcome(env: Io.Env, input: string, f: CliBase64.Base64Format)
    ensures input == Io.STDIN_SENTINEL ==> EncodeOutput(env, input, f) == Ok(Base64.Encode(EngineOf(f), env.stdin) + "\n")
    ensures input != Io.STDIN_SENTINEL && input !in env.files ==> EncodeOutput(env, input, f) == Err(NotFound)
    ensures input != Io.STDIN_SENTINEL && input in env.files ==>
      match env.files[input]
      case RegularFile(content) => EncodeOutput(env, input, f) == Ok(Base64.Encode(EngineOf(f), content) + "\n")
      case Directory => EncodeOutput(env, input, f) == Err(IoFailure)
  {
  }

  /** The encoded line never contains whitespace before its newline, so the
      decoder's trim takes off exactly that newline. */
  lemma EncodedHasNoWhitespace(e: Base64.Engine, b: seq<byte>)
    ensures forall i | 0 <= i < |Base64.Encode(e, b)| :: !IsWhitespace(Base64.Encode(e, b)[i])
  {
    Base64.EncodedCharacters(e, b);
  }

  /** `base64 encode` piped into `base64 decode` with the same format prints the
      original text back. */
  lemma PipeRoundTrip(env: Io.Env, files: map<string, Io.Entry>, text: string, f: CliBase64.Base64Format)
    requires env.stdin == Utf8.Encode(text)
    ensures EncodeOutput(env, Io.STDIN_SENTINEL, f).Ok?
    ensures var line := EncodeOutput(env, Io.STDIN_SENTINEL, f).value;
      DecodeOutput(Io.Env(Utf8.Encode(line), files), Io.STDIN_SENTINEL, f) == Ok(text + "\n")
  {
    var e := EngineOf(f);
    var encoded := Base64.Encode(e, env.stdin);
    var line := encoded + "\n";
    assert EncodeOutput(env, Io.STDIN_SENTINEL, f) == Ok(line);
    EncodedHasNoWhitespace(e, env.stdin);
    ReadLine(encoded, files);
    Base64.DecodeEncode(e, env.stdin);
    Utf8.DecodeEncode(text);
    assert FromUtf8(env.stdin) == Ok(text);
    assert DecodeText(line, f) == Ok(text + "\n");
  }

  /** A line without inner whitespace, read back from standard input, is the
      text of that line, and trims to its content. */
  lemma ReadLine(t: string, files: map<string, Io.Entry>)
    requires forall i | 0 <= i < |t| :: !IsWhitespace(t[i])
    ensures forall f :: DecodeOutput(Io.Env(Utf8.Encode(t + "\n"), files), Io.STDIN_SENTINEL, f) == DecodeText(t + "\n", f)
    ensures Trim(t + "\n") == t
  {
    TextRoundTrip(t + "\n");
    TrimLine(t);
  }

  lemma TrimLine(t: string)
    requires t == [] || (!IsWhitespace(t[0]) && !IsWhitespace(t[|t| - 1]))
    ensures Trim(t + "\n") == t
  {
    assert AllWhitespace("\n");
    TrimPadded("", t, "\n");
    assert "" + t + "\n" == t + "\n";
  }

  lemma TextRoundTrip(s: string)
    ensures FromUtf8(Utf8.Encode(s)) == Ok(s)
  {
    Utf8.DecodeEncode(s);
  }

  lemma WhitespaceConcat(a: string, b: string)
    requires AllWhitespace(a) && AllWhitespace(b)
    ensures AllWhitespace(a + b)
  {
    forall i | 0 <= i < |a + b| ensures IsWhitespace((a + b)[i]) {
      if i < |a| { assert (a + b)[i] == a[i]; } else { assert (a + b)[i] == b[i - |a|]; }
    }
  }

  lemma Regroup(w1: string, t: string, w2: string, i: nat, j: nat)
    requires i <= j <= |t|
    ensures w1 + t + w2 == (w1 + t[..i]) + t[i..j] + (t[j..] + w2)
  {
    assert t == t[..i] + t[i..j] + t[j..];
  }

  /** Trimming ignores extra whitespace on either side. */
  lemma TrimIgnoresPadding(w1: string, t: string, w2: string)
    requires AllWhitespace(w1) && AllWhitespace(w2)
    ensures Trim(w1 + t + w2) == Trim(t)
  {
    var core := Trim(t);
    var i := |t| - |TrimStart(t)|;
    assert i + |core| <= |t| && core == t[i..i + |core|] by {
      TrimStartShape(t);
      TrimEndShape(TrimStart(t));
    }
    assert AllWhitespace(w1 + t[..i]) by {
      TrimStartShape(t);
      WhitespaceConcat(w1, t[..i]);
    }
    assert AllWhitespace(t[i + |core|..] + w2) by {
      TrimStartShape(t);
      TrimEndShape(TrimStart(t));
      assert t[i + |core|..] == TrimStart(t)[|core|..];
      WhitespaceConcat(t[i + |core|..], w2);
    }
    assert core == [] || (!IsWhitespace(core[0]) && !IsWhitespace(core[|core| - 1])) by {
      TrimShape(t);
    }
    Regroup(w1, t, w2, i, i + |core|);
    TrimPadded(w1 + t[..i], core, t[i + |core|..] + w2);
  }

  /** Text that neither starts nor ends with whitespace is left as it is by
      trimming. */
  lemma TrimNothing(t: string)
    requires t == [] || (!IsWhitespace(t[0]) && !IsWhitespace(t[|t| - 1]))
    ensures Trim(t) == t
  {
  }

  /** Whitespace around the encoded text, such as the newline `encode` prints
      or one an editor adds, does not change what `decode` prints. */
  lemma DecodeIgnoresSurroundingWhitespace(w1: string, t: string, w2: string, f: CliBase64.Base64Format)
    requires AllWhitespace(w1) && AllWhitespace(w2)
    ensures DecodeText(w1 + t + w2, f) == DecodeText(t, f)
  {
    TrimIgnoresPadding(w1, t, w2);
  }

  /** Input that is not UTF-8 text is refused before any decoding. */
  lemma DecodeRejectsBinaryInput(env: Io.Env, f: CliBase64.Base64Format)
    requires Utf8.Decode(env.stdin).None?
    ensures DecodeOutput(env, Io.STDIN_SENTINEL, f) == Err(InvalidUtf8)
  {
  }

  /** A valid encoding of bytes that are not UTF-8 still fails: the decoded data
      is printed as text. */
  lemma DecodeRejectsBinaryOutput(b: seq<byte>, f: CliBase64.Base64Format)
    requires Utf8.Decode(b).None?
    ensures DecodeText(Base64.Encode(EngineOf(f), b), f) == Err(InvalidUtf8)
  {
    var e := EngineOf(f);
    var s := Base64.Encode(e, b);
    EncodedHasNoWhitespace(e, b);
    TrimNothing(s);
    Base64.DecodeEncode(e, b);
  }

  /** `/w==` (standard) and `_w` (URL-safe) encode the single byte 0xFF, so
      decoding either prints nothing and fails. */
  lemma BinaryOutputExamples()
    ensures DecodeText("/w==", CliBase64.Standard) == Err(InvalidUtf8)
    ensures DecodeText("_w", CliBase64.UrlSafe) == Err(InvalidUtf8)
  {
    ByteFF();
    DecodeRejectsBinaryOutput([0xFF], CliBase64.Standard);
    DecodeRejectsBinaryOutput([0xFF], CliBase64.UrlSafe);
  }

  /** The byte 0xFF is not UTF-8; its encodings are `/w==` and `_w`. */
  lemma ByteFF()
    ensures Utf8.Decode([0xFF]).None?
    ensures Base64.Encode(Base64.Standard, [0xFF]) == "/w=="
    ensures Base64.Encode(Base64.UrlSafeNoPad, [0xFF]) == "_w"
  {
    assert Base64.Encode(Base64.Standard, [0xFF]) == Base64.PartialSymbols(Base64.Standard, [0xFF]) + "==";
  }

  /** The standard decoder refuses text whose trimmed length is not a multiple
      of four, and the URL-safe one refuses any `=`, so the two formats do not
      read each other's output in general: `/w` and `_w==` are examples. */
  lemma FormatsDisagree(t: string, i: int)
    ensures |Trim(t)| % 4 != 0 ==> DecodeText(t, CliBase64.Standard) == Err(Base64Decode)
    ensures 0 <= i < |Trim(t)| && Trim(t)[i] == '=' ==> DecodeText(t, CliBase64.UrlSafe) == Err(Base64Decode)
    ensures DecodeText("/w", CliBase64.Standard) == Err(Base64Decode)
    ensures DecodeText("_w==", CliBase64.UrlSafe) == Err(Base64Decode)
  {
    if |Trim(t)| % 4 != 0 {
      StandardNeedsGroups(Trim(t));
    }
    if 0 <= i < |Trim(t)| && Trim(t)[i] == '=' {
      UrlSafeRefusesPadding(Trim(t), i);
    }
    TrimNothing("/w");
    StandardNeedsGroups("/w");
    TrimNothing("_w==");
    UrlSafeRefusesPadding("_w==", 2);
  }

  /** Standard text must come in whole groups of four characters. */
  lemma StandardNeedsGroups(s: string)
    requires |s| % 4 != 0
    ensures Base64.Decode(Base64.Standard, s).Err?
  {
    if Base64.Decode(Base64.Standard, s).Ok? {
      var b := Base64.Decode(Base64.Standard, s).value;
      Base64.EncodeDecode(Base64.Standard, s);
    }
  }

  /** URL-safe text may not hold padding. */
  lemma UrlSafeRefusesPadding(s: string, i: int)
    requires 0 <= i < |s| && s[i] == '='
    ensures Base64.Decode(Base64.UrlSafeNoPad, s).Err?
  {
    assert !Base64.InAlphabet(Base64.UrlSafeNoPad, '=');
    Base64.RejectsForeignCharacter(Base64.UrlSafeNoPad, s, i);
  }
}
