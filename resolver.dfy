/**
 * `get_color_info` of colors.py: a request is a hex code, an exact colour
 * name, or a fuzzy name with a single candidate; anything else yields the
 * list of candidates (empty when the name is unknown). The name service
 * (`colornames.find_exact`, `colornames.disambiguate`) is passed in.
 */
module Resolver {
  import opened Wrappers
  import opened ColorCodec

  /** `colornames.find_exact`: a name's hex code and canonical name, if the name is known. */
  type FindExact = string -> Option<(string, string)>

  /** `colornames.disambiguate`: the canonical names a fuzzy name could mean. */
  type Disambiguate = string -> seq<string>

  /** The pair `get_color_info` returns: a colour or None, and a list of names. */
  datatype ColorInfo = ColorInfo(color: Option<Color>, names: seq<string>)

  /** The exceptions `get_color_info` lets through. */
  datatype ResolveError =
    | Malformed(error: CodecError)  // `hex2color` refused a code the name service gave
    | NoEntry(name: string)         // the single candidate has no exact entry: unpacking None fails

  /**
   * `_hexcolor.fullmatch(s)`: an optional `#`, then 3 or 6 hex digits. The
   * strings it matches are exactly those `hex2color` accepts.
   */
  function IsHexPattern(s: string): (b: bool)
    ensures b <==> Hex2Color(s).Ok?
  {
    assert IsHexString(s) && |s| > 0 ==> s[0] != '#';
    ((|s| == 3 || |s| == 6) && IsHexString(s)) ||
    ((|s| == 4 || |s| == 7) && s[0] == '#' && IsHexString(s[1..]))
  }

  /** `hex2color(code), [canonical]` for an entry of the name service. */
  function FromEntry(code: string, canonical: string): (r: Result<ColorInfo, ResolveError>)
    ensures r.Ok? <==> Hex2Color(code).Ok?
    ensures r.Ok? ==> r.value == ColorInfo(Some(Hex2Color(code).value), [canonical])
  {
    match Hex2Color(code)
    case Ok(c) => Ok(ColorInfo(Some(c), [canonical]))
    case Err(e) => Err(Malformed(e))
  }

  /** `get_color_info(s)`. */
  function GetColorInfo(s: string, findExact: FindExact, disambiguate: Disambiguate)
    : (r: Result<ColorInfo, ResolveError>)
    ensures r.Ok? && r.value.color.Some? ==> |r.value.names| <= 1
    ensures r.Ok? && r.value.color.None? <==>
              !IsHexPattern(s) && findExact(s).None? && |disambiguate(s)| != 1
    ensures r.Ok? && r.value.color.None? ==> r.value.names == disambiguate(s)
  {
    if IsHexPattern(s) then
      Ok(ColorInfo(Some(Hex2Color(s).value), []))
    else
      match findExact(s)
      case Some((code, canonical)) => FromEntry(code, canonical)
      case None =>
        var candidates := disambiguate(s);
        if |candidates| == 1 then
          match findExact(candidates[0])
          case Some((code, canonical)) => FromEntry(code, canonical)
          case None => Err(NoEntry(candidates[0]))
        else
          Ok(ColorInfo(None, candidates))
  }

  /** A hex code resolves to its own colour, with no name, whatever the name service says. */
  lemma HexBypassesNames(s: string, findExact: FindExact, disambiguate: Disambiguate,
                         findExact': FindExact, disambiguate': Disambiguate)
    requires IsHexPattern(s)
    ensures Hex2Color(s).Ok?
    ensures GetColorInfo(s, findExact, disambiguate) == Ok(ColorInfo(Some(Hex2Color(s).value), []))
    ensures GetColorInfo(s, findExact, disambiguate) == GetColorInfo(s, findExact', disambiguate')
  {
  }

  /** A name the service knows exactly resolves to its code, with its canonical name. */
  lemma ExactNameResolves(s: string, findExact: FindExact, disambiguate: Disambiguate)
    requires !IsHexPattern(s) && findExact(s).Some?
    requires Hex2Color(findExact(s).value.0).Ok?
    ensures GetColorInfo(s, findExact, disambiguate) ==
              Ok(ColorInfo(Some(Hex2Color(findExact(s).value.0).value), [findExact(s).value.1]))
  {
  }

  /** A fuzzy name with exactly one candidate resolves as that candidate's exact entry. */
  lemma UniqueCandidateResolves(s: string, findExact: FindExact, disambiguate: Disambiguate)
    requires !IsHexPattern(s) && findExact(s).None? && |disambiguate(s)| == 1
    ensures var best := disambiguate(s)[0];
            GetColorInfo(s, findExact, disambiguate) ==
              if findExact(best).None? then Err(NoEntry(best))
              else FromEntry(findExact(best).value.0, findExact(best).value.1)
  {
  }

  /**
   * `#413`, a code from the help text, and `#bad`, a code that is also an
   * English word: both are taken as hex codes, whatever the name service says.
   */
  lemma ResolveExamples(findExact: FindExact, disambiguate: Disambiguate)
    ensures GetColorInfo("#bad", findExact, disambiguate) == Ok(ColorInfo(Some(0xbbaadd), []))
    ensures GetColorInfo("#413", findExact, disambiguate) == Ok(ColorInfo(Some(0x441133), []))
  {
    assert IsHexPattern("#bad") && IsHexPattern("#413");
    assert DigitValue('b') == 11 && DigitValue('a') == 10 && DigitValue('d') == 13;
    ShorthandExample("#bad", 0xbb, 0xaa, 0xdd);
    Hex2ColorExamples();
  }
}
