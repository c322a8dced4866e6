/**
 * The current-weather part of the client: `NewCurrent`, which validates the
 * requested unit of measure, and the query fragments that `CurrentByName` and
 * `CurrentByID` substitute into the request URL.
 *
 * The list of accepted unit tokens (`dataUnits` in the client) is a parameter
 * of every member here.
 */
module Current {
  import opened Wrappers
  import opened GoText

  /** The record `NewCurrent` builds; only `Units` is set before a lookup fills the rest. */
  datatype CurrentWeatherData = CurrentWeatherData(units: string)

  /** The one error `NewCurrent` returns. */
  datatype Error = UnitNotAvailable

  /** The text of the error value. */
  function Message(e: Error): string {
    match e
    case UnitNotAvailable => "ERROR: unit of measure not available"
  }

  /** Some accepted token occurs somewhere in the lowered unit. */
  ghost predicate UnitAvailable(dataUnits: seq<string>, unit: string) {
    exists k | 0 <= k < |dataUnits| :: Occurs(Lower(unit), dataUnits[k])
  }

  /** What `NewCurrent` returns, stated without its search loop. */
  ghost function Validation(dataUnits: seq<string>, unit: string): Result<CurrentWeatherData, Error> {
    if UnitAvailable(dataUnits, unit) then Success(CurrentWeatherData(Lower(unit)))
    else Failure(UnitNotAvailable)
  }

  /**
   * Lower-cases the unit and scans the tokens in order, returning at the
   * first one that occurs in it.
   */
  method NewCurrent(dataUnits: seq<string>, unit: string) returns (r: Result<CurrentWeatherData, Error>)
    ensures r == Validation(dataUnits, unit)
    ensures r.Success? <==> UnitAvailable(dataUnits, unit)
    ensures r.Success? ==> r.value.units == Lower(unit)
    ensures r.Failure? ==> r.error == UnitNotAvailable
    ensures r.Failure? ==> Message(r.error) == "ERROR: unit of measure not available"
  {
    var unitChoice := Lower(unit);
    for k := 0 to |dataUnits|
      invariant forall j | 0 <= j < k :: !Occurs(unitChoice, dataUnits[j])
    {
      if Contains(unitChoice, dataUnits[k]) {
        return Success(CurrentWeatherData(unitChoice));
      }
    }
    return Failure(UnitNotAvailable);
  }

  /**
   * Acceptance is by occurrence, not equality: any token found at any
   * position of the lowered unit is enough, and the record keeps the whole
   * lowered unit rather than the token.
   */
  lemma ValidationAccepts(dataUnits: seq<string>, unit: string, k: nat, i: nat, j: nat)
    requires k < |dataUnits| && i <= j <= |unit|
    requires Lower(unit)[i..j] == dataUnits[k]
    ensures Validation(dataUnits, unit) == Success(CurrentWeatherData(Lower(unit)))
  {
    assert Occurs(Lower(unit), dataUnits[k]);
  }

  /** A rejected unit contains no token at any position, and the error is the fixed one. */
  lemma ValidationRejects(dataUnits: seq<string>, unit: string)
    requires Validation(dataUnits, unit).Failure?
    ensures Validation(dataUnits, unit) == Failure(UnitNotAvailable)
    ensures forall k, i, j | 0 <= k < |dataUnits| && 0 <= i <= j <= |unit| :: Lower(unit)[i..j] != dataUnits[k]
  {
  }

  /** A unit whose lower-cased form is one of the tokens is accepted. */
  lemma ValidationExactToken(dataUnits: seq<string>, unit: string)
    requires Lower(unit) in dataUnits
    ensures Validation(dataUnits, unit) == Success(CurrentWeatherData(Lower(unit)))
  {
    var k :| 0 <= k < |dataUnits| && dataUnits[k] == Lower(unit);
    ValidationAccepts(dataUnits, unit, k, 0, |unit|);
  }

  /** A token with an upper-case letter occurs in no lowered unit, so it never matches. */
  lemma UpperTokenNeverMatches(token: string, unit: string, p: nat)
    requires p < |token| && 'A' <= token[p] <= 'Z'
    ensures !Occurs(Lower(unit), token)
  {
    forall i, j | 0 <= i <= j <= |unit|
      ensures Lower(unit)[i..j] != token
    {
      if i + p < j {
        assert Lower(unit)[i..j][p] == LowerChar(unit[i + p]);
      }
    }
  }

  /** With the token "Metric", even the unit "Metric" is rejected. */
  lemma CapitalisedTokenRejected()
    ensures Validation(["Metric"], "Metric") == Failure(UnitNotAvailable)
  {
    UpperTokenNeverMatches("Metric", "Metric", 0);
  }

  /** An empty token, which every string contains, makes every unit acceptable. */
  lemma ValidationEmptyToken(dataUnits: seq<string>, unit: string)
    requires "" in dataUnits
    ensures Validation(dataUnits, unit).Success?
  {
    var k :| 0 <= k < |dataUnits| && dataUnits[k] == "";
    ValidationAccepts(dataUnits, unit, k, 0, 0);
  }

  /** With no tokens registered, every unit is rejected. */
  lemma ValidationNoTokens(unit: string)
    ensures Validation([], unit) == Failure(UnitNotAvailable)
  {
  }

  /** The case of the requested unit never matters: the outcome and the stored units agree. */
  lemma ValidationCaseInsensitive(dataUnits: seq<string>, unit: string)
    ensures Validation(dataUnits, Lower(unit)) == Validation(dataUnits, unit)
  {
    LowerIdempotent(unit);
  }

  /** Loose matching: text added around an accepted unit keeps it accepted. */
  lemma ValidationExtend(dataUnits: seq<string>, unit: string, x: string, y: string)
    requires Validation(dataUnits, unit).Success?
    ensures Validation(dataUnits, x + unit + y) == Success(CurrentWeatherData(Lower(x + unit + y)))
  {
    var k :| 0 <= k < |dataUnits| && Occurs(Lower(unit), dataUnits[k]);
    OccursExtend(Lower(unit), dataUnits[k], Lower(x), Lower(y));
    LowerConcat(x, unit);
    LowerConcat(x + unit, y);
    assert Occurs(Lower(x + unit + y), dataUnits[k]);
  }

  /** Only which tokens are registered matters, not their order or repetition. */
  lemma ValidationOrderFree(d1: seq<string>, d2: seq<string>, unit: string)
    requires forall t :: t in d1 <==> t in d2
    ensures Validation(d1, unit) == Validation(d2, unit)
  {
    if UnitAvailable(d1, unit) {
      var k :| 0 <= k < |d1| && Occurs(Lower(unit), d1[k]);
      assert d1[k] in d2;
      var k2 :| 0 <= k2 < |d2| && d2[k2] == d1[k];
      assert UnitAvailable(d2, unit);
    }
    if UnitAvailable(d2, unit) {
      var k :| 0 <= k < |d2| && Occurs(Lower(unit), d2[k]);
      assert d2[k] in d1;
      var k1 :| 0 <= k1 < |d1| && d1[k1] == d2[k];
      assert UnitAvailable(d1, unit);
    }
  }

  /** "Imperial-ish" passes on the token "imperial" and is stored as "imperial-ish". */
  lemma ValidationKeepsWholeUnit()
    ensures Validation(["imperial"], "Imperial-ish") == Success(CurrentWeatherData("imperial-ish"))
  {
    assert Lower("Imperial-ish") == "imperial-ish";
    assert "imperial-ish"[0..8] == "imperial";
    ValidationAccepts(["imperial"], "Imperial-ish", 0, 0, 8);
  }

  // --------------------------------------------------------- query fragments

  /** The fragment `CurrentByName` formats: `q=%s&units=%s` with the location and the record's units. */
  function ByNameQuery(w: CurrentWeatherData, location: string): string {
    Sprintf("q=%s&units=%s", [Str(location), Str(w.units)])
  }

  /** The fragment `CurrentByID` formats: `id=%d&units=%s` with the numeric ID and the record's units. */
  function ByIdQuery(w: CurrentWeatherData, id: int): string {
    Sprintf("id=%d&units=%s", [Int(id), Str(w.units)])
  }

  /** The common tail of both formats puts the units after `&units=`. */
  lemma UnitsTail(units: string)
    ensures Sprintf("&units=%s", [Str(units)]) == "&units=" + units
  {
    assert "&units=%s" == "&units=" + "%s";
    SprintfLiteral("&units=", "%s", [Str(units)]);
    assert "%s" == ['%', 's'] + [];
    assert [Str(units)] == [Str(units)] + [];
    SprintfVerb('s', [], Str(units), []);
  }

  /** Substituting into `key%<verb>&units=%s`, for the verb `s` or `d`, puts the key and the units in their places and nothing else. */
  lemma FragmentShape(key: string, verb: char, a: Arg, units: string)
    requires forall i | 0 <= i < |key| :: key[i] != '%'
    requires verb == 's' || verb == 'd'
    ensures Sprintf(key + ['%', verb] + "&units=%s", [a, Str(units)]) == key + (Render(verb, a) + ("&units=" + units))
  {
    var tail, args := "&units=%s", [a, Str(units)];
    var verbed := ['%', verb] + tail;
    calc {
      Sprintf(key + ['%', verb] + "&units=%s", args);
    == { assert key + ['%', verb] + "&units=%s" == key + verbed; }
      Sprintf(key + verbed, args);
    == { SprintfLiteral(key, verbed, args); }
      key + Sprintf(verbed, args);
    == { assert args == [a] + [Str(units)]; SprintfVerb(verb, tail, a, [Str(units)]); }
      key + (Render(verb, a) + Sprintf(tail, [Str(units)]));
    == { UnitsTail(units); }
      key + (Render(verb, a) + ("&units=" + units));
    }
  }

  /** The by-name fragment is exactly `q=` + location + `&units=` + units. */
  lemma ByNameQueryShape(w: CurrentWeatherData, location: string)
    ensures ByNameQuery(w, location) == "q=" + location + "&units=" + w.units
  {
    assert "q=%s&units=%s" == "q=" + ['%', 's'] + "&units=%s";
    FragmentShape("q=", 's', Str(location), w.units);
  }

  /** The by-ID fragment is exactly `id=` + the decimal ID + `&units=` + units. */
  lemma ByIdQueryShape(w: CurrentWeatherData, id: int)
    ensures ByIdQuery(w, id) == "id=" + Decimal(id) + "&units=" + w.units
  {
    assert "id=%d&units=%s" == "id=" + ['%', 'd'] + "&units=%s";
    FragmentShape("id=", 'd', Int(id), w.units);
  }

  /** The prefix of `s` before the first `c`. */
  function TakeUntil(s: string, c: char): (r: string)
    ensures r <= s && c !in r
  {
    if s == [] || s[0] == c then [] else [s[0]] + TakeUntil(s[1..], c)
  }

  lemma {:induction false} TakeUntilStops(p: string, rest: string, c: char)
    requires c !in p && rest != [] && rest[0] == c
    ensures TakeUntil(p + rest, c) == p
  {
    if p == [] {
      assert p + rest == rest;
    } else {
      assert (p + rest)[0] == p[0];
      assert (p + rest)[1..] == p[1..] + rest;
      TakeUntilStops(p[1..], rest, c);
      assert [p[0]] + p[1..] == p;
    }
  }

  /** An inverse of the by-ID fragment: the decimal between `id=` and the first `&`. */
  function IdOf(fragment: string): Option<int> {
    if "id=" <= fragment then ParseDecimal(TakeUntil(fragment[3..], '&')) else None
  }

  /** The ID travels intact: it is read back from the fragment, whatever the units. */
  lemma ByIdQueryRecoversId(w: CurrentWeatherData, id: int)
    ensures IdOf(ByIdQuery(w, id)) == Some(id)
  {
    ByIdQueryNested(w, id);
    IdOfIdFragment(w.units, id);
  }

  lemma ByIdQueryNested(w: CurrentWeatherData, id: int)
    ensures ByIdQuery(w, id) == "id=" + (Decimal(id) + ("&units=" + w.units))
  {
    ByIdQueryShape(w, id);
  }

  lemma IdOfIdFragment(units: string, id: int)
    ensures IdOf("id=" + (Decimal(id) + ("&units=" + units))) == Some(id)
  {
    DecimalAlphabet(id);
    IdOfShape(Decimal(id), "&units=" + units);
    DecimalRoundTrip(id);
  }

  lemma IdOfShape(digits: string, rest: string)
    requires forall i | 0 <= i < |digits| :: digits[i] == '-' || '0' <= digits[i] <= '9'
    requires rest != [] && rest[0] == '&'
    ensures IdOf("id=" + (digits + rest)) == ParseDecimal(digits)
  {
    var f := "id=" + (digits + rest);
    assert "id=" <= f;
    assert f[3..] == digits + rest;
    TakeUntilStops(digits, rest, '&');
  }

  /** After a successful `NewCurrent`, a by-name lookup asks for the lowered unit as given. */
  lemma ValidatedByNameQuery(dataUnits: seq<string>, unit: string, location: string)
    requires UnitAvailable(dataUnits, unit)
    ensures Validation(dataUnits, unit).Success?
    ensures ByNameQuery(Validation(dataUnits, unit).value, location) == "q=" + location + "&units=" + Lower(unit)
  {
    ByNameQueryShape(Validation(dataUnits, unit).value, location);
  }
}
