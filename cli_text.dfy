/** The `--format` value of `text sign`, `text verify` and `text generate`. */
module CliText {
  import opened Common

  datatype TextSignFormat = Blake3 | Ed25519

  /** The value clap uses when `--format` is absent, for all three subcommands. */
  const DEFAULT_FORMAT: string := "blake3"

  const UNSUPPORTED: string := "Unsupported format. Supported formats: blake3, ed25519"

  /** `From<TextSignFormat> for &'static str`. */
  function Name(f: TextSignFormat): (r: string)
    ensures r != [] && forall i | 0 <= i < |r| :: 'a' <= r[i] <= 'z' || '0' <= r[i] <= '9'
  {
    match f
    case Blake3 => "blake3"
    case Ed25519 => "ed25519"
  }

  /** `Display`: writes what `Name` gives, so the rendering names exactly one
      format. */
  function Display(f: TextSignFormat): (r: string)
    ensures forall g :: Name(g) == r <==> g == f
  {
    Name(f)
  }

  /** `FromStr`: exact, case-sensitive names only. Whatever it accepts is the
      rendering of what it returns. */
  function Parse(s: string): (r: Result<TextSignFormat>)
    ensures r.Ok? ==> Display(r.value) == s
    ensures r.Err? ==> r.error == UnsupportedFormat(UNSUPPORTED)
  {
    match s
    case "blake3" => Ok(Blake3)
    case "ed25519" => Ok(Ed25519)
    case _ => Err(UnsupportedFormat(UNSUPPORTED))
  }

  /** Parsing a rendered format gives it back, and the two renderings differ. */
  lemma ParseDisplay(f: TextSignFormat)
    ensures Parse(Display(f)) == Ok(f)
    ensures Display(Blake3) != Display(Ed25519)
  {
  }

  /** Exactly the two names parse; any other spelling is an error. */
  lemma ParseAccepts(s: string)
    ensures Parse(s).Ok? <==> s == "blake3" || s == "ed25519"
  {
  }

  lemma ParseIsCaseSensitive()
    ensures Parse("Blake3").Err? && Parse("BLAKE3").Err? && Parse("Ed25519").Err?
  {
  }

  lemma DefaultIsBlake3()
    ensures Parse(DEFAULT_FORMAT) == Ok(Blake3)
  {
  }
}
