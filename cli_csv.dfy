/** The `--format` value of `csv` and the default name of the file it writes. */
module CliCsv {
  import opened Common

  datatype OutputFormat = Json | Yaml

  /** The value clap uses when `--format` is absent. */
  const DEFAULT_FORMAT: string := "json"

  const UNSUPPORTED: string := "Unsupported format. Supported formats: json, yaml"

  function LowerChar(c: char): char
  {
    if 'A' <= c <= 'Z' then (c as int + 32) as char else c
  }

  function UpperChar(c: char): char
  {
    if 'a' <= c <= 'z' then (c as int - 32) as char else c
  }

  /** `str::to_lowercase`, on the characters that can matter here (see README). */
  function ToLower(s: string): (r: string)
    ensures |r| == |s| && forall i | 0 <= i < |s| :: r[i] == LowerChar(s[i])
  {
    seq(|s|, i requires 0 <= i < |s| => LowerChar(s[i]))
  }

  /** `From<OutputFormat> for &'static str`. */
  function Name(f: OutputFormat): (r: string)
    ensures r != [] && forall i | 0 <= i < |r| :: 'a' <= r[i] <= 'z' || '0' <= r[i] <= '9'
    ensures ToLower(r) == r
  {
    match f
    case Json => "json"
    case Yaml => "yaml"
  }

  /** `Display`: writes what `Name` gives, so the rendering names exactly one
      format. */
  function Display(f: OutputFormat): (r: string)
    ensures forall g :: Name(g) == r <==> g == f
  {
    Name(f)
  }

  /** `FromStr`: the name in any mix of upper and lower case. */
  function Parse(s: string): (r: Result<OutputFormat>)
    ensures r.Ok? ==> ToLower(s) == Display(r.value)
    ensures r.Err? ==> r.error == UnsupportedFormat(UNSUPPORTED)
  {
    match ToLower(s)
    case "json" => Ok(Json)
    case "yaml" => Ok(Yaml)
    case _ => Err(UnsupportedFormat(UNSUPPORTED))
  }

  /** `s` spells the lower-case word `w` with any of its letters capitalised. */
  predicate SpellsIgnoringCase(s: string, w: string)
  {
    |s| == |w| && forall i | 0 <= i < |s| :: s[i] == w[i] || s[i] == UpperChar(w[i])
  }

  lemma LowerCharIs(c: char, d: char)
    requires 'a' <= d <= 'z'
    ensures LowerChar(c) == d <==> c == d || c == UpperChar(d)
  {
  }

  lemma ToLowerIs(s: string, w: string)
    requires forall i | 0 <= i < |w| :: 'a' <= w[i] <= 'z'
    ensures ToLower(s) == w <==> SpellsIgnoringCase(s, w)
  {
    if |s| == |w| {
      forall i | 0 <= i < |s| ensures LowerChar(s[i]) == w[i] <==> s[i] == w[i] || s[i] == UpperChar(w[i]) {
        LowerCharIs(s[i], w[i]);
      }
      if SpellsIgnoringCase(s, w) {
        assert forall i | 0 <= i < |s| :: ToLower(s)[i] == w[i];
      }
    }
  }

  /** Any capitalisation of "json" or "yaml" parses, and nothing else does. */
  lemma ParseIgnoresCase(s: string)
    ensures Parse(s) == Ok(Json) <==> SpellsIgnoringCase(s, "json")
    ensures Parse(s) == Ok(Yaml) <==> SpellsIgnoringCase(s, "yaml")
    ensures Parse(s).Err? <==> !SpellsIgnoringCase(s, "json") && !SpellsIgnoringCase(s, "yaml")
  {
    ToLowerIs(s, "json");
    ToLowerIs(s, "yaml");
  }

  /** Rendering is lower case, and parsing a rendered format gives it back. */
  lemma ParseDisplay(f: OutputFormat)
    ensures Parse(Display(f)) == Ok(f)
    ensures ToLower(Display(f)) == Display(f)
    ensures Display(Json) != Display(Yaml)
  {
    ToLowerIs(Display(f), Display(f));
  }

  lemma DefaultIsJson()
    ensures Parse(DEFAULT_FORMAT) == Ok(Json)
  {
    ParseIgnoresCase(DEFAULT_FORMAT);
  }

  /** The file `csv` writes: the `--output` value when one is given, otherwise
      `output.` followed by the rendered format. */
  function OutputName(output: Option<string>, format: OutputFormat): (r: string)
    ensures output.Some? ==> r == output.value
    ensures output.None? ==> r == "output." + Display(format)
  {
    match output
    case Some(o) => o
    case None => "output." + Display(format)
  }
}
