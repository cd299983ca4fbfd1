# rcli text, base64 and password core in Dafny

This project models the core of `rcli`, a Rust command-line toolbox:

- `text sign`, `text verify` and `text generate`, with keyed BLAKE3 and Ed25519;
- `base64 encode` and `base64 decode`;
- the password generator that BLAKE3 key generation uses;
- the `--format` values of `text`, `base64` and `csv`, and the default output file name of `csv`.

Modules, one per source file or component:

- `Common`: bytes, `Option`, `Result` and the errors the tool reports. An error whose reason is `Panic` stands for a program abort.
- `Utf8`: `String::from_utf8` and `str::as_bytes` as an RFC 3629 decoder and encoder, proved inverse in both directions.
- `Base64`: the `STANDARD` and `URL_SAFE_NO_PAD` engines of the `base64` crate, after RFC 4648. The model has canonical padding and strict trailing bits. Decode and encode are proved inverse in both directions.
- `Io`: the process environment as a value (standard input and a map of paths to files and directories). It covers `get_read`, `fs::read`, a `Reader` consumed in place, a `FileSystem` for `fs::write`, and `Path::join`.
- `CliText`, `CliBase64`, `CliCsv`: the format enums with `FromStr`, `From` and `Display`, their defaults, and the `csv` output name.
- `GenPass`: `process_genpass`, with the four character classes, `choose` and the in-place Fisher–Yates `shuffle`.
- `Base64Convert`: `process_encode` and `process_decode`, with `trim` and Unicode whitespace.
- `TextSign`: the `Blake3`, `Ed25519Signer` and `Ed25519Verifier` keys, and `process_text_sign`, `process_text_verify` and `process_text_generate`.
- `CliTextKeygen`: `TextKeyGenerateOpts::execute`, which writes `blake3.txt`, or `ed25519.sk` then `ed25519.pk`.

The cryptography is a parameter `Primitives` of uninterpreted functions: keyed hash, public key of a secret key, sign, public-key check and verify. The ghost predicate `Lawful` states what the algorithms guarantee: sizes of 32 and 64 bytes, derived public keys are valid, and a signature verifies under the signer's public key. Lemmas that need these guarantees require `Lawful(p)`. Randomness (`thread_rng`, `OsRng`) is nondeterministic choice.

Printing is modelled as a value. `process_encode` and `process_decode` return, as their `Ok` value, the line they print, newline included.

## Model

| member | source | states |
|---|---|---|
| `Utf8.EncodeChar` | src/process/text.rs:167 | a character takes one to four bytes, one exactly when it is ASCII |
| `Utf8.Encode` | src/process/text.rs:167 | text takes between one and four bytes per character, and exactly one byte per character when, and only when, it is ASCII |
| `Utf8.Decode` | src/process/base64_convert.rs:36 | decoded text has at most one character per byte and at least one per four bytes |
| `Utf8.DecodeEncode` | src/process/base64_convert.rs:36 | the bytes of any text are valid UTF-8 and decode to that text |
| `Utf8.EncodeDecode` | src/process/base64_convert.rs:36 | bytes that decode re-encode to exactly themselves |
| `Utf8.EncodeAscii` | src/process/text.rs:167 | ASCII text gives one byte per character, the character's code |
| `Utf8.DecodeAscii` | src/process/gen_pass.rs:71 | bytes below 0x80 always decode, one character per byte, with the same codes |
| `Base64.Value` | src/process/base64_convert.rs:31-34 | a character's 6-bit value, when there is one, is the value the alphabet maps back to that character |
| `Base64.Encode` | src/process/base64_convert.rs:16-19 | the encoding is empty exactly for no bytes; whole three-byte groups give four characters each; padded output is always whole groups of four |
| `Base64.Decode` | src/process/base64_convert.rs:31-34 | the only way decoding fails is a base64 decode error |
| `Base64.DecodeEncode` | src/process/base64_convert.rs:16-34 | decoding the encoding of any bytes, on either engine, gives the bytes back |
| `Base64.EncodeDecode` | src/process/base64_convert.rs:31-34 | only canonical text decodes: whatever decodes is the encoding of its result |
| `Base64.EncodedLength` | src/process/base64_convert.rs:16-19 | output length is 4*ceil(n/3) with padding and ceil(4n/3) without |
| `Base64.EncodedCharacters` | src/process/base64_convert.rs:16-19 | output holds alphabet characters only, apart from `=` in the last two places of padded output |
| `Base64.UrlSafeCharacters` | src/process/text.rs:106 | URL-safe output uses letters, digits, `-` and `_`, and never `+`, `/` or `=` |
| `Base64.RejectsForeignCharacter` | src/process/base64_convert.rs:31-34 | any character outside the alphabet (and padding) makes decoding fail |
| `Base64.EncodedIsAscii` | src/process/base64_convert.rs:16-19 | encoded text is ASCII |
| `Io.GetRead` | src/utils.rs:6-16 | `-` opens standard input; another path opens exactly when it exists, and a missing one is not found; reading it works only for a regular file, and yields that file's content |
| `Io.SentinelIsStdin` | src/utils.rs:8 | `-` means standard input even when a file called `-` exists |
| `Io.ReadAll` | src/process/base64_convert.rs:12-14 | reading a readable stream to its end yields all its bytes; an unreadable one gives the I/O error |
| `Io.ReadFile` | src/process/text.rs:157 | `fs::read` succeeds exactly on a regular file and yields its content; a missing path is not found |
| `Io.Reader.ReadToEnd` | src/process/text.rs:49 | a readable stream appends everything left to the buffer and is empty afterwards; otherwise an I/O error, nothing consumed |
| `Io.Reader.ReadToString` | src/process/base64_convert.rs:28 | as `ReadToEnd`, and the bytes must be UTF-8, otherwise an error and the buffer is kept |
| `Io.FileSystem.Write` | src/cli/text.rs:119 | the file at the path is created or replaced with the data and nothing else changes; a directory there is an error and nothing changes |
| `Io.Join` | src/cli/text.rs:118 | the joined path ends with the name and begins with the directory, with at most one separator between them |
| `CliBase64.Parse` | src/cli/base64.rs:52-64 | a parsed format renders as the input string; everything else gets the "Unsupported base64 format" error |
| `CliBase64.Name` | src/cli/base64.rs:66-73 | each format's name is a non-empty lower-case word |
| `CliBase64.Display` | src/cli/base64.rs:75-81 | the rendering, written through `From`, names exactly one format |
| `CliBase64.ParseDisplay` | src/cli/base64.rs:66-81 | parsing the rendering of a format gives the format back; the two renderings differ |
| `CliBase64.ParseAccepts` | src/cli/base64.rs:56-62 | exactly `standard` and `urlsafe` parse |
| `CliBase64.ParseIsCaseSensitive` | src/cli/base64.rs:56-58 | `URLSAFE`, `url_safe` and `Standard` are refused |
| `CliBase64.DefaultIsStandard` | src/cli/base64.rs:26 | the default `standard` parses to the standard format |
| `CliText.Parse` | src/cli/text.rs:64-76 | a parsed format renders as the input string; everything else gets the "Unsupported format" error |
| `CliText.Name` | src/cli/text.rs:78-85 | each format's name is a non-empty word of lower-case letters and digits |
| `CliText.Display` | src/cli/text.rs:87-92 | the rendering, written through `From`, names exactly one format |
| `CliText.ParseDisplay` | src/cli/text.rs:78-92 | parsing the rendering of a format gives the format back; the two renderings differ |
| `CliText.ParseAccepts` | src/cli/text.rs:68-74 | exactly `blake3` and `ed25519` parse |
| `CliText.ParseIsCaseSensitive` | src/cli/text.rs:68-71 | `Blake3`, `BLAKE3` and `Ed25519` are refused |
| `CliText.DefaultIsBlake3` | src/cli/text.rs:29 | the default `blake3` parses to BLAKE3 |
| `CliCsv.ToLower` | src/cli/csv.rs:89 | lower-casing keeps the length and maps each character on its own |
| `CliCsv.Name` | src/cli/csv.rs:75-82 | each format's name is a non-empty lower-case word, unchanged by lower-casing, so the case-folding parser can match it |
| `CliCsv.Display` | src/cli/csv.rs:99-104 | the rendering, written through `From`, names exactly one format |
| `CliCsv.Parse` | src/cli/csv.rs:85-97 | a parsed format renders as the lower-cased input; everything else gets the "Unsupported format" error |
| `CliCsv.ParseIgnoresCase` | src/cli/csv.rs:88-96 | `json` and `yaml` parse in any capitalisation, and nothing else parses |
| `CliCsv.ParseDisplay` | src/cli/csv.rs:75-104 | the rendering of a format is lower case and parses back to the format |
| `CliCsv.DefaultIsJson` | src/cli/csv.rs:30 | the default `json` parses to JSON |
| `CliCsv.OutputName` | src/cli/csv.rs:44-49 | the output file is the given name, or else `output.` followed by the rendered format |
| `GenPass.UpperLetters` | src/process/gen_pass.rs:5 | the upper-case class is capital letters without `I` and `O` |
| `GenPass.LowerLetters` | src/process/gen_pass.rs:6 | the lower-case class is small letters without `l` |
| `GenPass.NumberDigits` | src/process/gen_pass.rs:7 | the number class is the digits 1 to 9 |
| `GenPass.SymbolPunctuation` | src/process/gen_pass.rs:8 | the symbol class is ASCII and holds no letter or digit |
| `GenPass.Pool` | src/process/gen_pass.rs:20-43 | a character is in `chars` exactly when it belongs to one of the selected classes |
| `GenPass.PoolIsAscii` | src/process/gen_pass.rs:5-8 | every character that can be drawn is ASCII |
| `GenPass.EmptyPool` | src/process/gen_pass.rs:22-43 | `chars` is empty exactly when no class is selected |
| `GenPass.NoLookAlikes` | src/process/gen_pass.rs:5-8 | `I`, `O`, `l` and `0` can never be drawn |
| `GenPass.ClassesDisjoint` | src/process/gen_pass.rs:5-8 | no character belongs to two classes |
| `GenPass.Choose` | src/process/gen_pass.rs:62-64 | `choose` yields nothing exactly on an empty slice, and otherwise an element of it |
| `GenPass.Shuffle` | src/process/gen_pass.rs:69 | the shuffled password is a permutation of the old one |
| `GenPass.AddClass` | src/process/gen_pass.rs:22-26 | a selected class joins `chars`, and one of its characters joins the password |
| `GenPass.Seed` | src/process/gen_pass.rs:22-43 | before the loop, `chars` is the selected classes in order and the password has one character of each |
| `GenPass.ProcessGenpass` | src/process/gen_pass.rs:10-75 | it panics when the length is below the number of classes or when no class is selected for a non-empty password; otherwise the password has the length, every character comes from the selected classes, each selected class appears, and the text is ASCII |
| `Base64Convert.EngineOf` | src/process/base64_convert.rs:16-19 | `standard` selects the padded engine and `urlsafe` the unpadded one |
| `Base64Convert.IsWhitespace` | src/process/base64_convert.rs:30 | no whitespace character is a base64 character of either alphabet or padding, so `trim` cannot cut into encoded text |
| `Base64Convert.TrimStart` | src/process/base64_convert.rs:30 | `trim_start` never lengthens the text (its shape is stated by `TrimStartShape`) |
| `Base64Convert.TrimEnd` | src/process/base64_convert.rs:30 | `trim_end` never lengthens the text (its shape is stated by `TrimEndShape`) |
| `Base64Convert.Trim` | src/process/base64_convert.rs:30 | `trim` never lengthens the text (its shape is stated by `TrimShape`) |
| `Base64Convert.TrimStartShape` | src/process/base64_convert.rs:30 | `trim_start` keeps a suffix that does not start with whitespace and drops only whitespace |
| `Base64Convert.TrimEndShape` | src/process/base64_convert.rs:30 | `trim_end` keeps a prefix that does not end with whitespace and drops only whitespace |
| `Base64Convert.TrimShape` | src/process/base64_convert.rs:30 | `trim` keeps a slice of the text with no whitespace at either end, and only whitespace around it |
| `Base64Convert.TrimPadded` | src/process/base64_convert.rs:30 | trimming text padded with whitespace gives the text back exactly |
| `Base64Convert.TrimIgnoresPadding` | src/process/base64_convert.rs:30 | extra whitespace on either side does not change the trimmed text |
| `Base64Convert.TrimNothing` | src/process/base64_convert.rs:30 | text with no whitespace at its ends is unchanged by trimming |
| `Base64Convert.FromUtf8` | src/process/base64_convert.rs:36 | conversion succeeds exactly on valid UTF-8, gives the text those bytes encode, and otherwise reports invalid UTF-8 |
| `Base64Convert.ProcessEncode` | src/process/base64_convert.rs:11-23 | the printed line is the encoding of the input's bytes with the selected engine |
| `Base64Convert.ProcessDecode` | src/process/base64_convert.rs:25-39 | the input is read as text and trimmed, decoded with the selected engine, converted back to text and printed |
| `Base64Convert.EncodeOutcome` | src/process/base64_convert.rs:11-23 | encoding fails only on a missing input (not found) or a directory (I/O error) |
| `Base64Convert.EncodedHasNoWhitespace` | src/process/base64_convert.rs:16-21 | the encoded line has no whitespace before its newline |
| `Base64Convert.PipeRoundTrip` | src/process/base64_convert.rs:11-39 | encoding text and decoding the printed line with the same format prints the text back |
| `Base64Convert.DecodeIgnoresSurroundingWhitespace` | src/process/base64_convert.rs:29-30 | whitespace around the encoded text does not change the decoder's output |
| `Base64Convert.DecodeRejectsBinaryInput` | src/process/base64_convert.rs:28 | input that is not UTF-8 is refused before decoding |
| `Base64Convert.DecodeRejectsBinaryOutput` | src/process/base64_convert.rs:35-36 | for any bytes that are not UTF-8 and either format, decoding their encoding is an invalid UTF-8 error |
| `Base64Convert.BinaryOutputExamples` | src/process/base64_convert.rs:31-36 | `/w==` (standard) and `_w` (URL-safe), the encodings of the byte 0xFF, decode but fail the UTF-8 conversion |
| `Base64Convert.FormatsDisagree` | src/process/base64_convert.rs:30-34 | for any input, the standard decoder refuses trimmed text whose length is not a multiple of four, and the URL-safe decoder refuses trimmed text holding `=`; `/w` and `_w==` are examples |
| `TextSign.Blake3.TryNew` | src/process/text.rs:146-152 | a key shorter than 32 bytes panics; otherwise the key is its first 32 bytes |
| `TextSign.Blake3.Load` | src/process/text.rs:155-160 | an unreadable key file passes its error on; otherwise it loads exactly when it has at least 32 bytes, and the key is the first 32 |
| `TextSign.Blake3.Sign` | src/process/text.rs:45-54 | the signature is the keyed hash of everything the reader held; a read error is passed on; a successful read leaves the reader empty, a failed one leaves it unchanged |
| `TextSign.Blake3.Verify` | src/process/text.rs:56-69 | the answer is whether the keyed hash of the reader's content equals the signature; a read error is passed on; a successful read leaves the reader empty, a failed one leaves it unchanged |
| `TextSign.Blake3.Generate` | src/process/text.rs:163-170 | the key is 32 password characters, each drawn from the union of the four classes, with at least one byte of every class, and it loads back unchanged |
| `TextSign.Ed25519Signer.TryNew` | src/process/text.rs:177-182 | exactly 32 bytes make a secret key; any other length is a key-length error |
| `TextSign.Ed25519Signer.Load` | src/process/text.rs:185-190 | an unreadable key file passes its error on; otherwise it loads exactly when it is 32 bytes |
| `TextSign.Ed25519Signer.Sign` | src/process/text.rs:72-79 | the signature is the Ed25519 signature of everything the reader held; a read error is passed on; a successful read leaves the reader empty, a failed one leaves it unchanged |
| `TextSign.Ed25519Signer.Generate` | src/process/text.rs:192-202 | the result is a 32-byte secret key and its public key, and both load back |
| `TextSign.Ed25519Verifier.TryNew` | src/process/text.rs:209-214 | a public key must be 32 bytes (else key-length error) and decode (else invalid public key) |
| `TextSign.Ed25519Verifier.Load` | src/process/text.rs:217-222 | an unreadable key file passes its error on; otherwise it loads exactly when it is 32 bytes that decode as a public key |
| `TextSign.Ed25519Verifier.Check` | src/process/text.rs:87-89 | a signature that is not 64 bytes is an error; otherwise the answer is the public key's verdict |
| `TextSign.Ed25519Verifier.Verify` | src/process/text.rs:82-91 | the reader is read first, then the signature length is checked, then the public key decides; a successful read leaves the reader empty, a failed one leaves it unchanged |
| `TextSign.RandomBytes` | src/process/text.rs:195-196 | `OsRng` yields the requested number of bytes |
| `TextSign.ProcessTextGenerate` | src/process/text.rs:131-138 | generation never fails: one BLAKE3 key that loads, or an Ed25519 secret key that loads together with its public key |
| `TextSign.ProcessTextSign` | src/process/text.rs:93-108 | the result is the URL-safe unpadded encoding of the selected scheme's signature of the input |
| `TextSign.ProcessTextVerify` | src/process/text.rs:110-129 | the input is opened, the signature decoded, the key loaded, then the input read and checked |
| `TextSign.TrailingBytesAfterKey` | src/process/text.rs:146-152 | a BLAKE3 key file may carry trailing bytes such as a newline; an Ed25519 secret key file may not |
| `TextSign.SignOutcome` | src/process/text.rs:93-108 | signing succeeds exactly when the input opens and reads and the key loads; an open error comes before a key error |
| `TextSign.SignatureText` | src/process/text.rs:106 | a signature is 43 characters for BLAKE3 and 86 for Ed25519, all from the URL-safe alphabet |
| `TextSign.VerifyDecodesSignatureFirst` | src/process/text.rs:116-117 | a signature that does not decode is refused before the key file is looked at |
| `TextSign.VerifyAnswer` | src/process/text.rs:110-129 | with everything loaded, BLAKE3 answers whether the hash matches, and Ed25519 fails on a wrong length and otherwise answers the public key's verdict |
| `TextSign.Blake3SignThenVerify` | src/process/text.rs:229-239 | whatever BLAKE3 signing prints, verifying it with the same input and key answers true |
| `TextSign.Ed25519SignThenVerify` | src/process/text.rs:241-254 | whatever Ed25519 signing prints, verifying it with the matching public key answers true |
| `TextSign.Blake3RejectsOtherKey` | src/process/text.rs:56-69 | a BLAKE3 signature is refused under a key whose hash of the input differs |
| `CliTextKeygen.KeyFilesDiffer` | src/cli/text.rs:121-125 | `ed25519.sk` and `ed25519.pk` are always different paths |
| `CliTextKeygen.Execute` | src/cli/text.rs:110-129 | BLAKE3 writes its key to `blake3.txt`; Ed25519 writes the secret key to `ed25519.sk`, then the public key to `ed25519.pk`; a failed write stops the command and nothing else changes |
| `CliTextKeygen.Blake3KeyFileWorks` | src/cli/text.rs:115-120 | a 32-byte key written to `blake3.txt` signs, and the signature verifies |
| `CliTextKeygen.Ed25519KeyFilesWork` | src/cli/text.rs:121-125 | a signature made with the written `ed25519.sk` verifies under the written `ed25519.pk` |

## Left out

- The cryptographic algorithms (BLAKE3, Ed25519 arithmetic, point decoding) are uninterpreted functions. `Lawful` lists the only properties the proofs use.
- The random number generators are nondeterministic choice. Nothing is claimed about distribution or unpredictability.
- `process_http_serve`, `process_csv` and the CSV conversion are not part of this model. This snapshot calls `process_csv` with three arguments, but the function takes two.
- The clap wiring is not modelled: argument parsing, the `verify_file` and `verify_path` existence checks, `enum_dispatch` and the async runtime. The defaults are modelled as the strings clap parses.
- Printing to standard output is modelled as the returned line.
- In this snapshot `process_encode` and `process_decode` return `()` after printing, but the `base64` commands in src/cli/base64.rs:83-99 use a returned value. The model follows the process functions as written, and the command handlers are not modelled.
- `Base64Convert.TrimStart`, `Base64Convert.TrimEnd` and `Base64Convert.Trim`: their own contracts say only that the text does not grow. What is kept and what is dropped is stated by the lemmas `TrimStartShape`, `TrimEndShape` and `TrimShape`. Those facts are kept out of the functions' contracts so that proofs which unfold the functions stay small.
- `Io.FileSystem.Write` treats paths as flat keys, so it does not model a missing parent directory.
- `Io.Join` is `Path::join` for a relative name without separators, which is the only way the key generator calls it.
- `CliCsv.ToLower` lower-cases only ASCII letters. Rust's `to_lowercase` also folds non-ASCII characters. Of those, only `K` (U+212A KELVIN SIGN, to `k`) and `İ` (U+0130, to `i` followed by U+0307) lower-case to text holding an ASCII letter, and neither `k` nor `i` occurs in `json` or `yaml`. So parsing gives the same result.
- `GenPass.ProcessGenpass` models a debug build, where the `u8` subtraction before the loop panics. A release build would wrap around instead and produce a longer password.
- `TextSign.Blake3.TryNew` panics with a fixed message. Rust's message also states the slice length.
- `Base64.Decode` follows the crate's default decoding configuration, and its error carries no position or kind.
