/** `ContentView.formatTemperature`: turns a stored reading such as `"8°C"`
    into display text in the unit chosen in the settings. */
module Temperature {
  import opened SwiftInt
  import opened Strings

  const CELSIUS: string := "Celsius"
  const FAHRENHEIT: string := "Fahrenheit"
  const KELVIN: string := "Kelvin"

  const CELSIUS_SUFFIX: string := "°C"

  /** `Int(Double(c) * 9 / 5 + 32)`: degrees Fahrenheit, truncated toward
      zero as the conversion from `Double` to `Int` does. The exact value is
      (9c + 160) / 5. */
  function FahrenheitOf(c: int): (f: int)
    ensures 9 * c + 160 >= 0 ==> 5 * f <= 9 * c + 160 < 5 * f + 5
    ensures 9 * c + 160 < 0 ==> 5 * f - 5 < 9 * c + 160 <= 5 * f
  {
    var x := 9 * c + 160;
    if x >= 0 then x / 5 else -((-x) / 5)
  }

  /** The reading with every `"°C"` taken out, as `Int(String)` sees it. */
  function Reading(temperature: string): (r: Option<int>)
    ensures r.Some? ==> InRange(r.value)
    ensures !Contains(temperature, CELSIUS_SUFFIX) ==> r == Parse(temperature)
  {
    Parse(RemoveOccurrences(temperature, CELSIUS_SUFFIX))
  }

  /** `formatTemperature(temperature)` with `unit` standing for
      `appSettings.temperatureUnit`. */
  function FormatTemperature(temperature: string, unit: string): (r: string)
    ensures Reading(temperature).None? ==> r == temperature
  {
    match Reading(temperature)
    case None => temperature
    case Some(value) =>
      if unit == CELSIUS then Show(value) + "°C"
      else if unit == FAHRENHEIT then Show(FahrenheitOf(value)) + "°F"
      else if unit == KELVIN then Show(value + 273) + "K"
      else Show(value) + "°C"
  }

  /** Any unit other than the three known names falls back to Celsius. */
  lemma UnknownUnitIsCelsius(temperature: string, unit: string)
    requires unit != CELSIUS && unit != FAHRENHEIT && unit != KELVIN
    ensures FormatTemperature(temperature, unit) == FormatTemperature(temperature, CELSIUS)
  {
  }

  /** The digits of `Show(n)` contain no `°`, so `"°C"` removal passes
      them through and drops the trailing suffix. */
  lemma {:induction false} StripCanonical(n: int, suffix: string)
    ensures RemoveOccurrences(Show(n) + CELSIUS_SUFFIX + suffix, CELSIUS_SUFFIX) ==
              Show(n) + RemoveOccurrences(suffix, CELSIUS_SUFFIX)
  {
    var s := Show(n);
    forall i | 0 <= i < |s| ensures s[i] != CELSIUS_SUFFIX[0] {
      if n < 0 && i == 0 {
      } else {
        var t := if n < 0 then ShowNat(-n) else ShowNat(n);
        assert n < 0 ==> s[i] == t[i - 1];
      }
    }
    assert Show(n) + CELSIUS_SUFFIX + suffix == Show(n) + (CELSIUS_SUFFIX + suffix);
    RemoveOccurrencesAfterPlain(s, CELSIUS_SUFFIX + suffix, CELSIUS_SUFFIX);
    RemoveOccurrencesLeading(suffix, CELSIUS_SUFFIX);
  }

  /** The reading of a canonical `"<n>°C"` is `n`. */
  lemma CanonicalReading(n: int)
    requires InRange(n)
    ensures Reading(Show(n) + CELSIUS_SUFFIX) == Some(n)
  {
    StripCanonical(n, []);
    assert Show(n) + CELSIUS_SUFFIX + [] == Show(n) + CELSIUS_SUFFIX;
    assert Show(n) + [] == Show(n);
    ParseShow(n);
  }

  /** Celsius shows a stored canonical reading `"<n>°C"` unchanged. */
  lemma CelsiusRoundTrip(n: int)
    requires InRange(n)
    ensures FormatTemperature(Show(n) + CELSIUS_SUFFIX, CELSIUS) == Show(n) + CELSIUS_SUFFIX
  {
    CanonicalReading(n);
  }

  /** Every stored reading that parses is shown in Celsius in canonical
      form, and that text reads back as the same value. */
  lemma CelsiusCanonical(temperature: string, value: int)
    requires Reading(temperature) == Some(value)
    ensures FormatTemperature(temperature, CELSIUS) == Show(value) + CELSIUS_SUFFIX
    ensures Reading(FormatTemperature(temperature, CELSIUS)) == Some(value)
  {
    CanonicalReading(value);
  }

  /** Fahrenheit shows the truncated converted value followed by `°F`. */
  lemma FahrenheitShown(temperature: string, value: int)
    requires Reading(temperature) == Some(value)
    requires InRange(FahrenheitOf(value))
    ensures FormatTemperature(temperature, FAHRENHEIT) == Show(FahrenheitOf(value)) + "°F"
    ensures var r := FormatTemperature(temperature, FAHRENHEIT);
            |r| > 2 && r[|r| - 2..] == "°F" && Parse(r[..|r| - 2]) == Some(FahrenheitOf(value))
  {
    var r := FormatTemperature(temperature, FAHRENHEIT);
    assert r == Show(FahrenheitOf(value)) + "°F";
    assert r[..|r| - 2] == Show(FahrenheitOf(value));
    ParseShow(FahrenheitOf(value));
  }

  /** Kelvin shows the value plus 273 followed by `K`. */
  lemma KelvinShown(temperature: string, value: int)
    requires Reading(temperature) == Some(value)
    requires InRange(value + 273)
    ensures FormatTemperature(temperature, KELVIN) == Show(value + 273) + "K"
    ensures var r := FormatTemperature(temperature, KELVIN);
            |r| > 1 && r[|r| - 1] == 'K' && Parse(r[..|r| - 1]) == Some(value + 273)
  {
    var r := FormatTemperature(temperature, KELVIN);
    assert r == Show(value + 273) + "K";
    assert r[..|r| - 1] == Show(value + 273);
    ParseShow(value + 273);
  }

  /** The catalog's "8°C" is shown unchanged in Celsius. */
  lemma ExampleCelsius()
    ensures FormatTemperature("8°C", CELSIUS) == "8°C"
  {
    assert Show(8) == "8";
    CanonicalReading(8);
  }

  /** A canonical Celsius reading converts to the truncated Fahrenheit value. */
  lemma FahrenheitCanonical(n: int)
    requires InRange(n)
    ensures FormatTemperature(Show(n) + CELSIUS_SUFFIX, FAHRENHEIT) == Show(FahrenheitOf(n)) + "°F"
  {
    CanonicalReading(n);
  }

  /** A canonical Celsius reading converts to that value plus 273. */
  lemma KelvinCanonical(n: int)
    requires InRange(n)
    ensures FormatTemperature(Show(n) + CELSIUS_SUFFIX, KELVIN) == Show(n + 273) + "K"
  {
    CanonicalReading(n);
  }

  /** Freezing point in Fahrenheit. */
  lemma ExampleFreezingFahrenheit()
    ensures FormatTemperature("0°C", FAHRENHEIT) == "32°F"
  {
    assert Show(0) == "0";
    assert Show(FahrenheitOf(0)) == "32" by {
      assert FahrenheitOf(0) == 32;
      assert ShowNat(32) == "32" by {
        ShowNatDigits("32");
      }
    }
    FahrenheitCanonical(0);
    assert Show(0) + CELSIUS_SUFFIX == "0°C";
  }

  /** Boiling point in Fahrenheit. */
  lemma ExampleBoilingFahrenheit()
    ensures FormatTemperature("100°C", FAHRENHEIT) == "212°F"
  {
    assert Show(100) == "100" by {
      assert ShowNat(100) == "100" by {
        ShowNatDigits("100");
      }
    }
    assert Show(FahrenheitOf(100)) == "212" by {
      assert FahrenheitOf(100) == 212;
      assert ShowNat(212) == "212" by {
        ShowNatDigits("212");
      }
    }
    FahrenheitCanonical(100);
    assert Show(100) + CELSIUS_SUFFIX == "100°C";
  }

  /** Freezing point in Kelvin. */
  lemma ExampleKelvin()
    ensures FormatTemperature("0°C", KELVIN) == "273K"
  {
    assert ShowNat(273) == "273" by {
      ShowNatDigits("273");
    }
    KelvinText(0, "0", "273");
    assert "0" + CELSIUS_SUFFIX == "0°C" && "273" + "K" == "273K";
  }

  lemma KelvinText(n: int, shown: string, kelvin: string)
    requires InRange(n) && Show(n) == shown && Show(n + 273) == kelvin
    ensures FormatTemperature(shown + CELSIUS_SUFFIX, KELVIN) == kelvin + "K"
  {
    KelvinCanonical(n);
  }

  /** -18 °C is -0.4 °F, which truncates toward zero to 0, not down to -1. */
  lemma ExampleTruncation()
    ensures FormatTemperature("-18°C", FAHRENHEIT) == "0°F"
  {
    assert Show(-18) == "-18" by {
      assert ShowNat(18) == "18" by {
        ShowNatDigits("18");
      }
    }
    assert Show(FahrenheitOf(-18)) == "0" by {
      assert FahrenheitOf(-18) == 0;
    }
    FahrenheitCanonical(-18);
    assert Show(-18) + CELSIUS_SUFFIX == "-18°C";
  }

  /** A leading zero is accepted and dropped. */
  lemma ExampleLeadingZero()
    ensures FormatTemperature("08°C", CELSIUS) == "8°C"
  {
    RemoveOccurrencesAfterPlain("08", CELSIUS_SUFFIX, CELSIUS_SUFFIX);
    RemoveOccurrencesLeading([], CELSIUS_SUFFIX);
    assert "08°C" == "08" + CELSIUS_SUFFIX && "08" + [] == "08";
    assert IsLiteral("08") && DigitsValue("08") == 8;
    assert Show(8) == "8";
  }

  /** Text that is no number is shown as stored. */
  lemma ExampleNotANumber()
    ensures FormatTemperature("abc", FAHRENHEIT) == "abc"
  {
    RemoveOccurrencesAfterPlain("abc", [], CELSIUS_SUFFIX);
    assert "abc" + [] == "abc";
    assert !IsLiteral("abc");
  }

  /** A well-formed reading beyond the 64-bit range does not parse, so it
      is shown as stored, whatever the unit. */
  lemma OutOfRangeUnchanged(literal: string, unit: string)
    requires IsLiteral(literal) && !InRange(LiteralValue(literal))
    ensures FormatTemperature(literal + CELSIUS_SUFFIX, unit) == literal + CELSIUS_SUFFIX
  {
    forall i | 0 <= i < |literal| ensures literal[i] != CELSIUS_SUFFIX[0] {
      if i > 0 || IsDigit(literal[0]) {
        assert i > 0 ==> literal[i] == literal[1..][i - 1];
      }
    }
    RemoveOccurrencesAfterPlain(literal, CELSIUS_SUFFIX, CELSIUS_SUFFIX);
    RemoveOccurrencesLeading([], CELSIUS_SUFFIX);
    assert literal + [] == literal;
  }
}
