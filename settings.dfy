/** `AppSettings`, the app's one shared settings object, and the
    add-city action `AddCityView` runs on its `cities` list. */
module Settings {
  import opened SwiftInt
  import opened Weather
  import Temperature

  class AppSettings {
    /** `temperatureUnit`: the unit name the settings picker stores. */
    var temperatureUnit: string
    /** `capitalCity`: the chosen capital's name, if any. */
    var capitalCity: Option<string>
    /** `cities`: the cities the user has added, in the order added. */
    var cities: seq<WeatherData>
    /** `stationname`: free text naming the user's station. */
    var stationName: string

    /** No two added cities share a name; equivalently, no entry repeats
        the name of an earlier one. */
    ghost predicate Valid(): (r: bool)
      reads this
      ensures r <==> forall j :: 0 <= j < |cities| ==> !HasCity(cities[..j], cities[j].city)
    {
      DistinctNoEarlier(cities);
      DistinctCities(cities)
    }

    /** The values `AppSettings()` starts with. */
    constructor ()
      ensures Valid()
      ensures temperatureUnit == Temperature.CELSIUS && capitalCity == None
      ensures cities == [] && stationName == ""
    {
      temperatureUnit := Temperature.CELSIUS;
      capitalCity := None;
      cities := [];
      stationName := "";
    }

    /** The add button: append `city` unless an entry with its name is
        already there. */
    method AddCity(city: WeatherData)
      requires Valid()
      modifies this`cities
      ensures Valid()
      ensures HasCity(old(cities), city.city) ==> cities == old(cities)
      ensures !HasCity(old(cities), city.city) ==> cities == old(cities) + [city]
      ensures HasCity(cities, city.city)
    {
      if !HasCity(cities, city.city) {
        cities := cities + [city];
        assert cities[|cities| - 1] == city;
      }
    }

    /** Tapping row `row` of the list the search shows. */
    method ChooseFromSearch(search: string, row: nat)
      requires Valid()
      requires row < |FilteredCities(search)|
      modifies this`cities
      ensures Valid()
      ensures var chosen := FilteredCities(search)[row];
              chosen in CATALOG &&
              cities == if HasCity(old(cities), chosen.city) then old(cities) else old(cities) + [chosen]
    {
      var listed := FilteredCities(search);
      assert listed[row] in listed;
      AddCity(listed[row]);
    }

    /** `formatTemperature` as `ContentView` calls it, in the stored unit. */
    function FormatTemperature(temperature: string): (r: string)
      reads this
      ensures Temperature.Reading(temperature).None? ==> r == temperature
    {
      Temperature.FormatTemperature(temperature, temperatureUnit)
    }
  }

  /** Adding the same record twice has the effect of adding it once. */
  method AddCityTwice(settings: AppSettings, city: WeatherData)
    requires settings.Valid()
    modifies settings`cities
    ensures settings.Valid()
    ensures settings.cities == old(settings.cities) + (if HasCity(old(settings.cities), city.city) then [] else [city])
  {
    settings.AddCity(city);
    ghost var once := settings.cities;
    settings.AddCity(city);
    assert settings.cities == once;
  }

  /** In Celsius, the unit a new settings object starts with, every catalog
      reading is shown as stored. */
  lemma CatalogShownInCelsius()
    ensures forall i :: 0 <= i < |CATALOG| ==>
              Temperature.FormatTemperature(CATALOG[i].temperature, Temperature.CELSIUS) == CATALOG[i].temperature
  {
    forall i | 0 <= i < |CATALOG|
      ensures Temperature.FormatTemperature(CATALOG[i].temperature, Temperature.CELSIUS) == CATALOG[i].temperature
    {
      var n := if i == 0 then 5 else if i == 1 || i == 2 then 4 else if i == 3 then 3 else if i == 4 then 6 else 8;
      assert Show(n) + Temperature.CELSIUS_SUFFIX == CATALOG[i].temperature;
      Temperature.CelsiusRoundTrip(n);
    }
  }
}
