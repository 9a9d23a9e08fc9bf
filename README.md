# Weather app: temperature display, city search and the city list

A Dafny model of the small amount of value logic in the SwiftUI weather
app `Main.swift`:

- `ContentView.formatTemperature` turns a stored reading such as `"8°C"`
  into display text in the unit held in `AppSettings.temperatureUnit`.
  It removes every `"°C"`, reads the rest with Swift's `Int(String)`,
  and then prints `<n>°C`, `trunc(n * 9 / 5 + 32)°F` or `<n + 273>K`.
  An unknown unit name is treated as Celsius. Text that does not parse
  is shown as stored.
- `AddCityView.filteredCities` is the search over the six-entry catalog
  `CitieIndex`. An empty search lists the whole catalog. Any other search
  keeps, in catalog order, the entries whose city name contains the
  search text, ignoring case.
- The add button appends the chosen catalog entry to `AppSettings.cities`
  only when no entry with that city name is there yet. This keeps the
  list free of duplicate names.

Modules:

- `SwiftInt` models Swift's `Int(String)` for the 64-bit `Int`: an optional
  sign, one or more ASCII digits, and a value within range. It also models
  the decimal text of `"\(n)"`. The parser is a left-to-right digit scan
  (`ScanDigits`). Its contract ties it to a separate positional reference
  (`IsLiteral`, `LiteralValue`). Printing and parsing are proved to be
  inverses in both directions.
- `Strings` models the Foundation calls used: substring search,
  `replacingOccurrences(of:with: "")` and `localizedCaseInsensitiveContains`.
  The locale's case folding is replaced by a stated simple fold: ASCII
  capitals and the Latin-1 capitals `À`–`Þ` (except `×`) map to lower case.
- `Weather` holds the `WeatherData` record, the catalog and the search filter.
- `Temperature` holds `formatTemperature` and its properties.
- `Settings` holds the `AppSettings` class, whose `cities` field is a
  sequence the add action changes in place. Its invariant `Valid()` says no
  two entries share a city name.

Details of `Main.swift` that the model keeps:

- The whole text left after every `"°C"` is removed must be an `Int`. So
  `"8 °C"` (with a blank) is shown as stored, because `"8 "` is no `Int`,
  while `"8°C°C"` reads as 8.
- Fahrenheit truncates toward zero. So -18 °C, which is -0.4 °F, is shown
  as `0°F`.
- The unit switch has a `Kelvin` branch that shows the value plus 273.
- The catalog `CitieIndex` has six entries.

## Model

| member | source | states |
|---|---|---|
| `SwiftInt.Parse` | Main.swift:257 | `Int(String)` gives a value exactly when the text is an optional `+`/`-` followed by one or more ASCII digits and the value fits in 64 bits; that value is the positional value of the digits, negated after `-` |
| `SwiftInt.ScanDigits` | Main.swift:257 | a successful digit scan saw only ASCII digits, never goes below its starting value, and stays within the limit once it has read a digit |
| `SwiftInt.ScanDigitsValue` | Main.swift:257 | the left-to-right digit scan with an overflow limit yields the positional value of the digits when all are digits and the value stays within the limit, and fails otherwise |
| `SwiftInt.ShowNat` | Main.swift:263 | the printed magnitude is a non-empty string of ASCII digits with no leading zero |
| `SwiftInt.Show` | Main.swift:263 | the printed `Int` is non-empty and starts with `-` exactly when the value is negative |
| `SwiftInt.ParseShow` | Main.swift:257-263 | reading back the printed text of any 64-bit `Int` gives that `Int` |
| `SwiftInt.ShowParse` | Main.swift:257-263 | a canonical literal (no `+`, no leading zero, no `-0`) within range parses, and printing its value gives the same text |
| `Strings.Contains` | Main.swift:124 | substring search is true exactly when the pattern occurs at some position of the text |
| `Strings.RemoveOccurrences` | Main.swift:257 | removing `"°C"` never lengthens the text, leaves text without an occurrence unchanged, and shortens text that holds an occurrence by at least the pattern's length |
| `Strings.RemoveOccurrencesAfterPlain` | Main.swift:257 | a prefix with no character that could start an occurrence passes through removal untouched |
| `Strings.RemoveOccurrencesLeading` | Main.swift:257 | a leading occurrence is dropped and removal continues after it |
| `Strings.CaseInsensitiveContains` | Main.swift:124 | the match holds exactly when the query is non-empty and its folded form occurs at some position of the folded name; a match needs a query no longer than the name |
| `Strings.FoldCaseIdempotent` | Main.swift:124 | folding case twice is the same as folding once |
| `Strings.CaseInsensitiveQuery` | Main.swift:124 | the case-insensitive match does not depend on the casing of the query |
| `Weather.WeatherData` | Main.swift:38-45 | one city's record: name, temperature, humidity, wind speed and rain amount, all as text |
| `Weather.CATALOG` | Main.swift:112-118 | the six catalog records with the names and readings of `CitieIndex`, in its order |
| `Weather.HasCity` | Main.swift:133 | `contains(where:)` on the city name is true exactly when some entry has that name |
| `Weather.DistinctNoEarlier` | Main.swift:133-135 | a list has distinct names exactly when no entry repeats the name of an earlier one, the shape that appending only absent names builds |
| `Weather.KeepMatching` | Main.swift:124 | the filter result is an order-preserving subsequence of the entries, holds each matching entry exactly as often as the entries do and no other entry, so an entry is in the result exactly when it is an entry and matches |
| `Weather.FilteredCities` | Main.swift:120-126 | an empty search gives the catalog itself; any other search gives an order-preserving subsequence of the catalog whose entries all match, and every matching catalog entry is in it |
| `Weather.MissingCharNoMatch` | Main.swift:124 | an entry whose folded name lacks one of the folded query's characters is not matched |
| `Weather.KeepMatchingSingle` | Main.swift:124 | when exactly one entry matches, the filter gives a list of just that entry |
| `Weather.SearchBuende` | Main.swift:112-124 | any query that folds to `bün` lists exactly the Bünde entry |
| `Weather.SearchBuendeCasings` | Main.swift:112-124 | `bün`, `BÜN` and `Bün` all list exactly the Bünde entry |
| `Weather.CatalogDistinct` | Main.swift:112-118 | no two catalog entries share a city name |
| `Temperature.FahrenheitOf` | Main.swift:266 | the Fahrenheit value is (9c + 160) / 5 truncated toward zero: for a non-negative numerator it is the floor, for a negative one the ceiling |
| `Temperature.Reading` | Main.swift:257 | the value the guard reads is a 64-bit `Int`, and text without `"°C"` is read by `Int(String)` as it is |
| `Temperature.FormatTemperature` | Main.swift:256-259 | when the text with every `"°C"` removed does not parse as an `Int`, the input is returned unchanged, whatever the unit |
| `Temperature.UnknownUnitIsCelsius` | Main.swift:272-274 | a unit other than `Celsius`, `Fahrenheit` and `Kelvin` gives the same text as `Celsius` |
| `Temperature.StripCanonical` | Main.swift:257 | removing `"°C"` from printed digits followed by `"°C"` and more text keeps the digits and drops that suffix |
| `Temperature.CanonicalReading` | Main.swift:257 | the stored text `"<n>°C"` of any 64-bit `n` reads as `n` |
| `Temperature.CelsiusRoundTrip` | Main.swift:262-263 | in Celsius a canonical stored reading `"<n>°C"` is shown unchanged |
| `Temperature.CelsiusCanonical` | Main.swift:257-263 | any reading that parses is shown in Celsius as the canonical decimal of its value plus `°C`, and that text reads back as the same value |
| `Temperature.FahrenheitShown` | Main.swift:264-267 | in Fahrenheit any reading that parses is shown as the printed truncated Fahrenheit value plus `°F`, and what precedes `°F` parses as that value |
| `Temperature.KelvinShown` | Main.swift:268-271 | in Kelvin any reading that parses is shown as the printed value plus 273 followed by `K`, and what precedes `K` parses as that sum |
| `Temperature.FahrenheitCanonical` | Main.swift:264-267 | a canonical `"<n>°C"` is shown as the printed truncated Fahrenheit value plus `°F` |
| `Temperature.KelvinCanonical` | Main.swift:268-271 | a canonical `"<n>°C"` is shown as the printed `n + 273` plus `K` |
| `Temperature.OutOfRangeUnchanged` | Main.swift:257-259 | a well-formed number outside the 64-bit range followed by `"°C"` is shown unchanged in every unit |
| `Temperature.ExampleCelsius` | Main.swift:262-263 | `"8°C"` is shown as `8°C` in Celsius |
| `Temperature.ExampleFreezingFahrenheit` | Main.swift:264-267 | `"0°C"` gives `32°F` |
| `Temperature.ExampleBoilingFahrenheit` | Main.swift:264-267 | `"100°C"` gives `212°F` |
| `Temperature.ExampleKelvin` | Main.swift:268-271 | `"0°C"` gives `273K` |
| `Temperature.ExampleTruncation` | Main.swift:266 | `"-18°C"` gives `0°F`: -0.4 truncates toward zero |
| `Temperature.ExampleLeadingZero` | Main.swift:257-263 | `"08°C"` is shown as `8°C` in Celsius |
| `Temperature.ExampleNotANumber` | Main.swift:257-259 | `"abc"` is shown as `abc` |
| `Settings.AppSettings.Valid` | Main.swift:133-135 | the settings invariant: no entry of `cities` repeats the name of an earlier one |
| `Settings.AppSettings.constructor` | Main.swift:58-72 | a new settings object has unit `Celsius`, no capital, no cities, an empty station name, and satisfies the invariant |
| `Settings.AppSettings.AddCity` | Main.swift:133-135 | if a city with the same name is present the list is unchanged, otherwise exactly the record is appended at the end; afterwards the name is present and the no-duplicate-names invariant still holds |
| `Settings.AppSettings.ChooseFromSearch` | Main.swift:131-135 | tapping a row of the filtered list adds that catalog entry under the same rule and keeps the invariant |
| `Settings.AppSettings.FormatTemperature` | Main.swift:256-261 | the view's formatter uses the stored unit, and text that does not parse is returned unchanged |
| `Settings.AddCityTwice` | Main.swift:133-135 | adding the same record twice has the effect of adding it once |
| `Settings.CatalogShownInCelsius` | Main.swift:113-118 | every catalog reading is shown unchanged in Celsius |

## Left out

- The SwiftUI views, navigation, sheets, tabs and the `weatherTab` styling are UI with no stateable behaviour.
- The settings pickers for the unit and the capital city only assign a field; they are plain assignments in the UI.
- `accentColor` and the `Color` values are library types with no logic.
- `currentStation`, its placeholder fallback and `WeatherStationInformation` are view-time data plumbing.
- The profile form, its `UserDefaults` writes and the image picker are I/O and UIKit delegates.
- The random `UUID` `id` of each record is nondeterministic, so `WeatherData` has no `id` field.
- `Temperature.FahrenheitOf`: it is computed exactly in integers. The source computes in `Double`. The results agree while `9 * c` stays below 2^53 in magnitude, so that `Double(c) * 9` is exact, because the exact quotient is then an integer or at least 0.2 away from one. Beyond that bound the `Double` result can differ, and beyond the `Int` range the conversion traps. Neither is modelled.
- `Temperature.FormatTemperature`: Swift traps when `value + 273` overflows `Int`. The model adds without a limit.
- `Strings.CaseInsensitiveContains`: it uses the simple fold described above, not the locale-aware folding of `localizedCaseInsensitiveContains`. Characters outside ASCII and Latin-1 are compared as they are.
- `Strings.RemoveOccurrences`, the unit comparison in `Temperature.FormatTemperature`, `Weather.HasCity` and so `Settings.AppSettings.AddCity` compare strings as sequences of Unicode scalar values. Swift's `String ==` uses canonical equivalence, so a decomposed `ü` or `°` (a base letter plus a combining mark) would be equal in Swift and different here. The names the add action compares all come from `CATALOG`, which spells each name one way, so no input the app can produce tells the two apart.
