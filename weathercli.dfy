/**
 * The command-line front end: the shape check on the four flags, the choice
 * between geolocation, a current lookup and a five-day forecast, the weather
 * calls each choice makes, the template it renders with and the exit status.
 *
 * Flag parsing, HTTP, JSON decoding and template execution are not modelled;
 * the city the geolocation service reports is a parameter.
 */
module WeatherCli {
  import opened Wrappers
  import opened GoText

  /** The values of `-w`, `-u`, `-l` and `-t` after parsing. */
  datatype Flags = Flags(where: string, unit: string, lang: string, when: string)

  /** Flag defaults: empty, except `-t`, which defaults to "current". */
  const DEFAULT_FLAGS := Flags("", "", "", "current")

  /** Number of days the forecast mode asks for. */
  const FORECAST_DAYS := 5

  /** What `main` decides to do. */
  datatype Action =
    | Usage                                                      // print usage, exit 1
    | GeoThenCurrent(unit: string, lang: string)                 // locate by IP, then current weather there
    | Current(where: string, unit: string, lang: string)         // current weather for the named place
    | Forecast(where: string, unit: string, lang: string, days: nat)

  /** The outbound calls an action makes, in order. */
  datatype Call =
    | Locate
    | GetCurrent(location: string, unit: string, lang: string)
    | GetForecast(location: string, unit: string, lang: string, days: nat)

  datatype Template = WeatherTemplate | ForecastTemplate

  /** The flag check `main` applies first, on byte lengths as Go's `len` counts them. */
  predicate ShapeOk(f: Flags) {
    !(ByteLen(f.where) <= 1 || ByteLen(f.unit) != 1 || ByteLen(f.lang) != 2 || ByteLen(f.when) <= 1)
  }

  /** `main` after flag parsing. */
  function Dispatch(f: Flags): Action {
    if !ShapeOk(f) then Usage
    else if Lower(f.where) == "here" then GeoThenCurrent(f.unit, f.lang)
    else if f.when == "current" then Current(f.where, f.unit, f.lang)
    else Forecast(f.where, f.unit, f.lang, FORECAST_DAYS)
  }

  /**
   * The first step of a run that fails, if any: `log.Fatalln` ends the
   * process there with status 1, so no later step happens.
   */
  datatype Fault = NoFault | LocateFailed | LookupFailed | RenderFailed

  /** Usage is printed before anything can fail, and only "here" runs geolocate. */
  predicate Possible(a: Action, fault: Fault) {
    (a.Usage? ==> fault == NoFault) && (fault == LocateFailed ==> a.GeoThenCurrent?)
  }

  /**
   * The calls made for an action when the geolocation service reports
   * `city`; a failed geolocation ends the run before the weather lookup.
   */
  function Calls(a: Action, city: string, fault: Fault): seq<Call> {
    match a
    case Usage => []
    case GeoThenCurrent(u, l) => if fault == LocateFailed then [Locate] else [Locate, GetCurrent(city, u, l)]
    case Current(w, u, l) => [GetCurrent(w, u, l)]
    case Forecast(w, u, l, d) => [GetForecast(w, u, l, d)]
  }

  /** The template an action's branch renders with, if any. */
  function TemplateOf(a: Action): Option<Template> {
    match a
    case Usage => None
    case GeoThenCurrent(_, _) => Some(WeatherTemplate)
    case Current(_, _, _) => Some(WeatherTemplate)
    case Forecast(_, _, _, _) => Some(ForecastTemplate)
  }

  /** The template actually parsed and executed: none once a lookup has failed. */
  function TemplateUsed(a: Action, fault: Fault): Option<Template> {
    if fault == LocateFailed || fault == LookupFailed then None else TemplateOf(a)
  }

  /** Exit status: 1 for usage and for any failed step (`log.Fatalln`), 0 otherwise. */
  function ExitCode(a: Action, fault: Fault): int {
    if a.Usage? || fault != NoFault then 1 else 0
  }

  predicate IsWeatherCall(c: Call) {
    c.GetCurrent? || c.GetForecast?
  }

  /**
   * Usage is chosen exactly when a flag has the wrong length; then nothing
   * is looked up, nothing is rendered and the status is 1.
   */
  lemma UsageIff(f: Flags, city: string, fault: Fault)
    ensures Dispatch(f) == Usage <==>
      ByteLen(f.where) <= 1 || ByteLen(f.unit) != 1 || ByteLen(f.lang) != 2 || ByteLen(f.when) <= 1
    ensures Dispatch(f) == Usage ==>
      Calls(Dispatch(f), city, fault) == [] && TemplateUsed(Dispatch(f), fault) == None &&
      ExitCode(Dispatch(f), fault) == 1
  {
  }

  /** For ASCII flags the byte lengths are character counts. */
  lemma UsageIffAscii(f: Flags)
    requires IsAscii(f.where) && IsAscii(f.unit) && IsAscii(f.lang) && IsAscii(f.when)
    ensures Dispatch(f) == Usage <==> |f.where| <= 1 || |f.unit| != 1 || |f.lang| != 2 || |f.when| <= 1
  {
    ByteLenBounds(f.where);
    ByteLenBounds(f.unit);
    ByteLenBounds(f.lang);
    ByteLenBounds(f.when);
  }

  /**
   * Whatever passes the check has a unit that is one ASCII character, a
   * language of two ASCII characters or one two-byte character, and a
   * location and a mode of at least one character.
   */
  lemma AcceptedShape(f: Flags)
    requires Dispatch(f) != Usage
    ensures |f.unit| == 1 && f.unit[0] as int < 0x80
    ensures (|f.lang| == 2 && IsAscii(f.lang)) || (|f.lang| == 1 && 0x80 <= f.lang[0] as int < 0x800)
    ensures |f.where| >= 1 && |f.when| >= 1
  {
    ByteLenOne(f.unit);
    ByteLenTwo(f.lang);
    ByteLenBounds(f.where);
    ByteLenBounds(f.when);
  }

  /** "here" is recognised in any mix of upper and lower case, and only in the four-letter spelling. */
  lemma HereAnyCase(w: string)
    ensures Lower(w) == "here" <==>
      |w| == 4 && w[0] in "hH" && w[1] in "eE" && w[2] in "rR" && w[3] in "eE"
  {
    if |w| == 4 {
      assert Lower(w)[0] == LowerChar(w[0]);
      assert Lower(w)[1] == LowerChar(w[1]);
      assert Lower(w)[2] == LowerChar(w[2]);
      assert Lower(w)[3] == LowerChar(w[3]);
      if w[0] in "hH" && w[1] in "eE" && w[2] in "rR" && w[3] in "eE" {
        assert Lower(w) == [Lower(w)[0], Lower(w)[1], Lower(w)[2], Lower(w)[3]];
      }
    } else {
      assert |Lower(w)| != |"here"|;
    }
  }

  /**
   * "here" wins over the mode: the location is found first and the one
   * current lookup uses the reported city, never the flag's text, with the
   * current-weather template.
   */
  lemma HereWins(f: Flags, when: string, city: string, fault: Fault)
    requires ShapeOk(f) && Lower(f.where) == "here" && ByteLen(when) > 1
    requires fault != LocateFailed
    ensures Dispatch(f.(when := when)) == Dispatch(f) == GeoThenCurrent(f.unit, f.lang)
    ensures Calls(Dispatch(f), city, fault) == [Locate, GetCurrent(city, f.unit, f.lang)]
    ensures forall c | c in Calls(Dispatch(f), city, fault) && IsWeatherCall(c) :: c.location == city
    ensures TemplateOf(Dispatch(f)) == Some(WeatherTemplate)
  {
  }

  /** Any other location with the mode spelled exactly "current" gets one current lookup for it. */
  lemma CurrentMode(f: Flags, city: string)
    requires ShapeOk(f) && Lower(f.where) != "here" && f.when == "current"
    ensures Dispatch(f) == Current(f.where, f.unit, f.lang)
    ensures forall fault :: Calls(Dispatch(f), city, fault) == [GetCurrent(f.where, f.unit, f.lang)]
    ensures TemplateOf(Dispatch(f)) == Some(WeatherTemplate)
  {
  }

  /** Every other mode that passes the check, "forecast" or not, gets a five-day forecast. */
  lemma ForecastMode(f: Flags, city: string)
    requires ShapeOk(f) && Lower(f.where) != "here" && f.when != "current"
    ensures Dispatch(f) == Forecast(f.where, f.unit, f.lang, 5)
    ensures forall fault :: Calls(Dispatch(f), city, fault) == [GetForecast(f.where, f.unit, f.lang, 5)]
    ensures TemplateOf(Dispatch(f)) == Some(ForecastTemplate)
  {
  }

  /** The mode comparison is case-sensitive: "Current" asks for a forecast. */
  lemma CapitalisedModeForecasts()
    ensures Dispatch(Flags("Philadelphia", "f", "en", "Current")) == Forecast("Philadelphia", "f", "en", 5)
  {
    var f := Flags("Philadelphia", "f", "en", "Current");
    assert IsAscii(f.where) && IsAscii(f.unit) && IsAscii(f.lang) && IsAscii(f.when);
    UsageIffAscii(f);
    assert |Lower(f.where)| != |"here"|;
  }

  /** `-w Philadelphia -u f -l en` asks for the current weather in Philadelphia. */
  lemma PhiladelphiaCurrent(city: string, fault: Fault)
    ensures Dispatch(Flags("Philadelphia", "f", "en", "current")) == Current("Philadelphia", "f", "en")
    ensures Calls(Current("Philadelphia", "f", "en"), city, fault) == [GetCurrent("Philadelphia", "f", "en")]
  {
    var f := Flags("Philadelphia", "f", "en", "current");
    assert IsAscii(f.where) && IsAscii(f.unit) && IsAscii(f.lang) && IsAscii(f.when);
    UsageIffAscii(f);
    assert ShapeOk(f);
    assert Lower(f.where) != "here" by {
      assert |Lower(f.where)| != |"here"|;
    }
    CurrentMode(f, city);
  }

  /** Leaving out `-t` means current conditions; leaving out everything means usage. */
  lemma Defaults(where: string, unit: string, lang: string)
    ensures Dispatch(DEFAULT_FLAGS) == Usage
    ensures ByteLen(where) > 1 && ByteLen(unit) == 1 && ByteLen(lang) == 2 && Lower(where) != "here" ==>
      Dispatch(DEFAULT_FLAGS.(where := where, unit := unit, lang := lang)) == Current(where, unit, lang)
  {
    assert ByteLen("current") == 7;
  }

  /**
   * Whatever passes the check and does not fail in geolocation makes exactly
   * one weather call, as the last call, preceded by at most one geolocation;
   * it renders a template unless the lookup failed, and its status is 0
   * exactly when no step failed.
   */
  lemma OneWeatherCall(f: Flags, city: string, fault: Fault)
    requires Dispatch(f) != Usage && Possible(Dispatch(f), fault) && fault != LocateFailed
    ensures var cs := Calls(Dispatch(f), city, fault);
      1 <= |cs| <= 2 && IsWeatherCall(cs[|cs| - 1]) &&
      (forall i | 0 <= i < |cs| - 1 :: cs[i] == Locate)
    ensures TemplateUsed(Dispatch(f), fault).Some? <==> fault != LookupFailed
    ensures ExitCode(Dispatch(f), fault) == if fault == NoFault then 0 else 1
  {
  }

  /** A failed geolocation stops the "here" run: no weather call, no output, status 1. */
  lemma FailedLocateStops(f: Flags, city: string)
    requires Dispatch(f).GeoThenCurrent?
    ensures Calls(Dispatch(f), city, LocateFailed) == [Locate]
    ensures forall c | c in Calls(Dispatch(f), city, LocateFailed) :: !IsWeatherCall(c)
    ensures TemplateUsed(Dispatch(f), LocateFailed) == None
    ensures ExitCode(Dispatch(f), LocateFailed) == 1
  {
  }

  /** The template follows the weather call: the forecast template exactly for a forecast. */
  lemma TemplateMatchesCall(f: Flags, city: string, fault: Fault)
    requires Dispatch(f) != Usage && Possible(Dispatch(f), fault) && fault != LocateFailed
    ensures var cs := Calls(Dispatch(f), city, fault);
      TemplateOf(Dispatch(f)) == Some(if cs[|cs| - 1].GetForecast? then ForecastTemplate else WeatherTemplate)
  {
  }
}
