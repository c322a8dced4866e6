# openweathermap: unit validation, query fragments and CLI dispatch

A Dafny model of the decision logic in this small OpenWeatherMap client and its example command line:

- **Unit validation.** `NewCurrent` in `current.go` lower-cases the requested unit. It then walks the registered unit tokens (`dataUnits`) in order. It accepts at the first token that occurs anywhere in the lowered unit as a substring; exact equality is not required. The record it builds stores the whole lowered unit, not the token. Otherwise it returns the fixed error `ERROR: unit of measure not available` and no record. The contents of `dataUnits` are defined outside `current.go`, so the list is a parameter here. `Current.NewCurrent` is a method with the same loop and early return. It is proved against the ghost function `Current.Validation`, and the lemmas beside it state the properties of validation.
- **Query fragments.** `CurrentByName` and `CurrentByID` substitute the location (or the numeric ID) and the record's units into the formats `q=%s&units=%s` and `id=%d&units=%s`. The model includes `fmt.Sprintf` for the verbs `%s`, `%d` and `%%`, together with Go's annotations for missing, mistyped and extra operands. The lemmas prove what each fragment expands to. They also prove that the ID can be read back out of its fragment, because `%d` round-trips.
- **CLI dispatch.** `main` in `_examples/cli/weather.go` becomes the pure function `WeatherCli.Dispatch`. It maps the four flag values to an action: usage (status 1), geolocation then a current lookup, a current lookup, or a 5-day forecast. `Calls`, `TemplateOf` and `ExitCode` give the outbound calls, the template and the exit status of each action. The flag-length check uses Go's `len`, which counts UTF-8 bytes, so the model measures flags with `GoText.ByteLen`.

Modules: `Wrappers` (Result, Option), `GoText` (the `strings` and `fmt` behaviour the code relies on), `Current` (`current.go`) and `WeatherCli` (`_examples/cli/weather.go`).

## Notes on the code

- Units are accepted by substring containment, not by membership in a fixed set.
- The unit is lower-cased before the tokens are searched for, but the tokens are not. A token with an upper-case letter therefore never matches any unit (`Current.UpperTokenNeverMatches`).
- Flag lengths are byte counts, not character counts. A language flag made of one two-byte character, such as `é`, passes the "exactly two" check (`WeatherCli.AcceptedShape`). A one-character unit outside ASCII, such as `°`, fails it.

## Model

| member | source | states |
|---|---|---|
| Current.Validation | current.go:15-23 | defines the outcome of validation without the loop: a record holding the lowered unit when some token occurs in it, the UnitNotAvailable error otherwise; its properties are the Validation* rows below |
| Current.NewCurrent | current.go:15-23 | the result is a record exactly when some registered token occurs in the lowered unit; the record's units are the lowered unit; otherwise the error is UnitNotAvailable, whose text is "ERROR: unit of measure not available"; all three follow from a loop that returns at the first matching token |
| Current.Message | current.go:22 | defines the error text "ERROR: unit of measure not available"; NewCurrent states it for every failure |
| Current.ValidationAccepts | current.go:16-19 | a token found at any position of the lowered unit is enough for acceptance (no exact match needed), and the stored units are the whole lowered unit |
| Current.ValidationRejects | current.go:22 | a rejection carries the fixed error, and rejection means no token occurs at any position of the lowered unit |
| Current.ValidationExactToken | current.go:18 | a unit whose lower-cased form is one of the tokens is accepted |
| Current.UpperTokenNeverMatches | current.go:16-18 | a token containing an upper-case letter occurs in no lowered unit, so it never matches |
| Current.CapitalisedTokenRejected | current.go:16-22 | with the only token "Metric", even the unit "Metric" is rejected |
| Current.ValidationEmptyToken | current.go:18 | an empty registered token makes every unit acceptable, because every string contains it |
| Current.ValidationNoTokens | current.go:17-22 | with no tokens registered, every unit is rejected |
| Current.ValidationCaseInsensitive | current.go:16 | validating the lowered unit gives the same outcome and the same stored units as validating the unit itself |
| Current.ValidationExtend | current.go:18 | if a unit is accepted, the unit with any text added before and after it is accepted too, and its lowered form is stored |
| Current.ValidationOrderFree | current.go:17-19 | two token lists that hold the same tokens, in any order or with repeats, give the same outcome |
| Current.ValidationKeepsWholeUnit | current.go:19 | with the token "imperial", the unit "Imperial-ish" is accepted and stored as "imperial-ish", not as "imperial" |
| Current.ValidatedByNameQuery | current.go:19 | after a successful validation, the by-name fragment carries the whole lowered unit, not the matched token |
| Current.ByNameQuery | current.go:28 | defines the by-name fragment as `Sprintf("q=%s&units=%s", location, units)`; its expansion is ByNameQueryShape |
| Current.ByIdQuery | current.go:68 | defines the by-ID fragment as `Sprintf("id=%d&units=%s", id, units)`; its expansion is ByIdQueryShape and its inverse ByIdQueryRecoversId |
| Current.FragmentShape | current.go:28 | substituting an operand and the units into "key%<verb>&units=%s", for the verb s or d, gives the key text, the rendered operand, "&units=" and the units, with nothing in between |
| Current.ByNameQueryShape | current.go:28 | the by-name fragment is exactly "q=" + location + "&units=" + units |
| Current.ByIdQueryShape | current.go:68 | the by-ID fragment is exactly "id=" + the decimal ID + "&units=" + units |
| Current.ByIdQueryRecoversId | current.go:68 | the ID can be recovered from the by-ID fragment: it is the decimal between "id=" and the first "&", whatever the units are |
| GoText.Lower | current.go:16 | lower-casing keeps the length and maps each character on its own (ASCII letters only); idempotence is LowerIdempotent |
| GoText.Contains | current.go:18 | the substring test holds exactly when the second string occurs as a contiguous slice of the first, including the empty string |
| GoText.LowerIdempotent | current.go:16 | lower-casing a lowered string changes nothing |
| GoText.DecimalRoundTrip | current.go:68 | parsing the `%d` rendering of any integer gives that integer back |
| GoText.NatDigitsValue | current.go:68 | the digits of a natural number are decimal digits with no leading zero, and their value is the number |
| GoText.Decimal | current.go:68 | defines `%d`: a minus sign for negative values, then the digits of the magnitude; its round trip is DecimalRoundTrip |
| GoText.Sprintf | current.go:28 | defines `fmt.Sprintf` for the verbs %s, %d and %%, with Go's markers for missing, mistyped and extra operands; its laws are SprintfLiteral and SprintfVerb |
| GoText.SprintfLiteral | current.go:28 | a format's text without `%` is copied to the output unchanged |
| GoText.SprintfVerb | current.go:68 | a `%s` or `%d` verb consumes the next operand and renders it in place |
| GoText.ByteLen | _examples/cli/weather.go:138 | defines Go's `len` of a string as the sum of the UTF-8 widths of its characters; its bounds are ByteLenBounds, ByteLenOne and ByteLenTwo |
| GoText.ByteLenBounds | _examples/cli/weather.go:138 | a string's byte length is between its character count and four times that, and equals the character count exactly for ASCII strings |
| GoText.ByteLenOne | _examples/cli/weather.go:138 | a string is one byte long exactly when it is a single ASCII character |
| GoText.ByteLenTwo | _examples/cli/weather.go:138 | a string is two bytes long exactly when it is two ASCII characters or one two-byte character |
| WeatherCli.ShapeOk | _examples/cli/weather.go:138 | defines the flag check: location and mode longer than one byte, unit exactly one byte, language exactly two; see UsageIff and UsageIffAscii |
| WeatherCli.Dispatch | _examples/cli/weather.go:134-196 | defines `main` after flag parsing: the length check, then "here" in any case, then the exact mode "current", else a 5-day forecast; its cases are UsageIff, HereWins, CurrentMode and ForecastMode |
| WeatherCli.Calls | _examples/cli/weather.go:144-193 | defines the calls each action makes in order, ending after Locate when geolocation fails; their properties are HereWins, OneWeatherCall and FailedLocateStops |
| WeatherCli.TemplateOf | _examples/cli/weather.go:153-185 | defines the template each branch renders with: the current-weather template for "here" and "current", the forecast template otherwise; see TemplateMatchesCall |
| WeatherCli.TemplateUsed | _examples/cli/weather.go:145-190 | defines the template actually executed: none when a geolocation or lookup has failed; see OneWeatherCall and FailedLocateStops |
| WeatherCli.ExitCode | _examples/cli/weather.go:140-195 | defines the exit status: 1 for usage and for any failed step, 0 otherwise; see UsageIff, OneWeatherCall and FailedLocateStops |
| WeatherCli.UsageIff | _examples/cli/weather.go:138-141 | usage is chosen exactly when a flag has the wrong byte length; then no call is made, no template is used and the status is 1 |
| WeatherCli.UsageIffAscii | _examples/cli/weather.go:138 | for ASCII flags, usage is chosen exactly when location or mode has at most one character, the unit is not one character, or the language is not two |
| WeatherCli.AcceptedShape | _examples/cli/weather.go:138 | flags that pass have a one-character ASCII unit, a language of two ASCII characters or one two-byte character, and a non-empty location and mode |
| WeatherCli.HereAnyCase | _examples/cli/weather.go:144 | the location means "here" exactly when it is h, e, r, e in any mix of upper and lower case |
| WeatherCli.HereWins | _examples/cli/weather.go:144-163 | for "here", any mode gives the same action; unless geolocation fails, it geolocates and then makes one current lookup keyed by the reported city (never the flag text), with the current-weather template |
| WeatherCli.CurrentMode | _examples/cli/weather.go:166-179 | any other location with the mode exactly "current" gives a single current lookup for that location with the current-weather template |
| WeatherCli.ForecastMode | _examples/cli/weather.go:180-193 | any other mode that passes the check gives a single forecast lookup for the location over 5 days, with the forecast template |
| WeatherCli.CapitalisedModeForecasts | _examples/cli/weather.go:166 | the mode comparison is case-sensitive: "Current" gives a forecast |
| WeatherCli.PhiladelphiaCurrent | _examples/cli/weather.go:166-168 | `-w Philadelphia -u f -l en -t current` makes one current lookup for Philadelphia |
| WeatherCli.Defaults | _examples/cli/weather.go:66-71 | with the flag defaults (DEFAULT_FLAGS: all empty except `-t`, which is "current") the result is usage; omitting only `-t` gives a current lookup |
| WeatherCli.OneWeatherCall | _examples/cli/weather.go:134-196 | every action other than usage whose geolocation, if any, succeeds makes exactly one weather call, as its last call, preceded by at most one geolocation; it executes a template unless the lookup failed; its status is 0 exactly when no step failed |
| WeatherCli.FailedLocateStops | _examples/cli/weather.go:145-148 | when geolocation fails, the run makes no weather call, executes no template and exits with status 1 |
| WeatherCli.TemplateMatchesCall | _examples/cli/weather.go:185 | the forecast template is selected exactly when the weather call is a forecast |

## Left out

- HTTP, body reading and JSON decoding in `CurrentByName`, `CurrentByCoordinates`, `CurrentByID` and `getLocation` are I/O. Only the query fragments are modelled, and lookup results are opaque.
- `CurrentByCoordinates` (current.go:47-63) is not modelled, because it formats `float64` values with `%f`.
- `GetByArea` (current.go:85) has an empty body, so there is nothing to model.
- The outer substitution of the fragment into `baseUrl` is not modelled, because `baseUrl` is defined outside `current.go`. The contents of `dataUnits` are not shown for the same reason, so the list is a parameter.
- GoText.Lower: lower-cases only the ASCII letters A-Z. Go's `strings.ToLower` is Unicode-aware; for example, it maps the Kelvin sign U+212A to `k`.
- GoText.ByteLen: assumes the flag values are valid UTF-8 text. Arbitrary bytes in command-line arguments are not modelled.
- GoText.Sprintf: handles only the verbs `%s`, `%d` and `%%`. Any other verb is copied through, and flags, widths and argument indexes are not modelled.
- GoText.Decimal: uses unbounded integers, so Go's 64-bit `int` limit on the ID is not modelled.
- The text templates are a library whose output is not modelled. Only the choice between the current-weather and forecast templates is.
- `flag.Parse`, the usage text, `os.Getenv("OWM_API_KEY")`, `os.Exit` and stdout are I/O. The parsed flag values are the input of `Dispatch`. `log.Fatalln` is represented by the `Fault` argument, which names the first failing step; Go's `log.Fatalln` exits with status 1. The failure itself (network, JSON or template error) is not modelled, only where it stops the run.
- The command line calls a three-argument `NewCurrent(units, lang, key)` and `NewForecast` from a different version of the client. `getForecast5` also calls `DailyByName`, which is not shown. These calls are modelled as the abstract calls `GetCurrent` and `GetForecast`, which carry the location, unit, language and day count. Whether the unit is accepted at that point is not part of the CLI model.
- The error from reading the response body in current.go:34-37 is printed and not acted on. That is I/O and is not modelled.
