/** The `--format` value of `base64 encode` and `base64 decode`. */
module CliBase64 {
  import opened Common

  datatype Base64Format = Standard | UrlSafe

  /** The value clap uses when `--format` is absent, for both subcommands. */
  const DEFAULT_FORMAT: string := "standard"

  const UNSUPPORTED: string := "Unsupported base64 format. Supported formats: standard, urlsafe"

  /** `From<Base64Format> for &'static str`. */
  function Name(f: Base64Format): (r: string)
    ensures r != [] && forall i | 0 <= i < |r| :: 'a' <= r[i] <= 'z' || '0' <= r[i] <= '9'
  {
    match f
    case Standard => "standard"
    case UrlSafe => "urlsafe"
  }

  /** `Display`: writes what `Name` gives, so the rendering names exactly one
      format. */
  function Display(f: Base64Format): (r: string)
    ensures forall g :: Name(g) == r <==> g == f
  {
    Name(f)
  }

  /** `FromStr`: exact, case-sensitive names only. Whatever it accepts is the
      rendering of what it returns. */
  function Parse(s: string): (r: Result<Base64Format>)
    ensures r.Ok? ==> Display(r.value) == s
    ensures r.Err? ==> r.error == UnsupportedFormat(UNSUPPORTED)
  {
    match s
    case "standard" => Ok(Standard)
    case "urlsafe" => Ok(UrlSafe)
    case _ => Err(UnsupportedFormat(UNSUPPORTED))
  }

  /** Parsing a rendered format gives it back, and the two renderings differ. */
  lemma ParseDisplay(f: Base64Format)
    ensures Parse(Display(f)) == Ok(f)
    ensures Display(Standard) != Display(UrlSafe)
  {
  }

  /** Exactly the two names parse; any other spelling is an error. */
  lemma ParseAccepts(s: string)
    ensures Parse(s).Ok? <==> s == "standard" || s == "urlsafe"
  {
  }

  lemma ParseIsCaseSensitive()
    ensures Parse("URLSAFE").Err? && Parse("url_safe").Err? && Parse("Standard").Err?
  {
  }

  lemma DefaultIsStandard()
    ensures Parse(DEFAULT_FORMAT) == Ok(Standard)
  {
  }
}
