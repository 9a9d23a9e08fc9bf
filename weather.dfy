/** The weather record, the fixed catalog of cities the user can add, and
    the search filter over that catalog (`AddCityView`). */
module Weather {
  import opened Strings

  /** `WeatherData`: one city's readings, all kept as display text. The
      random `id` is not modelled. */
  datatype WeatherData = WeatherData(
    city: string,
    temperature: string,
    humidity: string,
    windSpeed: string,
    rainAmount: string)

  /** `AddCityView.CitieIndex`, in the order the view lists it. */
  const CATALOG: seq<WeatherData> := [
    WeatherData("Berlin", "5°C", "70%", "10 km/h", "0 mm"),
    WeatherData("Hamburg", "4°C", "75%", "12 km/h", "0.2 mm"),
    WeatherData("München", "4°C", "53%", "8 km/h", "4 mm"),
    WeatherData("Bremen", "3°C", "45%", "12 km/h", "4 mm"),
    WeatherData("Köln", "6°C", "65%", "14 km/h", "0.1 mm"),
    WeatherData("Bünde", "8°C", "62%", "13 km/h", "0.2 mm")
  ]

  /** `cities.contains(where: { $0.city == name })`: tests the entries
      front to back and stops at the first with that name. */
  predicate HasCity(cities: seq<WeatherData>, name: string): (r: bool)
    ensures r <==> exists i :: 0 <= i < |cities| && cities[i].city == name
    decreases |cities|
  {
    if cities == [] then false
    else if cities[0].city == name then true
    else
      var rest := HasCity(cities[1..], name);
      assert rest <==> exists i :: 0 <= i < |cities| && cities[i].city == name by {
        if rest {
          var j :| 0 <= j < |cities[1..]| && cities[1..][j].city == name;
          assert cities[j + 1] == cities[1..][j];
        }
      }
      rest
  }

  /** No two entries share a city name. */
  ghost predicate DistinctCities(cities: seq<WeatherData>) {
    forall i, j :: 0 <= i < j < |cities| ==> cities[i].city != cities[j].city
  }

  /** Distinct names are exactly what appending only absent names builds:
      no entry repeats the name of an earlier one. */
  lemma DistinctNoEarlier(cities: seq<WeatherData>)
    ensures DistinctCities(cities) <==>
              forall j :: 0 <= j < |cities| ==> !HasCity(cities[..j], cities[j].city)
  {
    if DistinctCities(cities) {
      forall j | 0 <= j < |cities| ensures !HasCity(cities[..j], cities[j].city) {
        forall i | 0 <= i < j ensures cities[..j][i].city != cities[j].city {
          assert cities[..j][i] == cities[i];
        }
      }
    }
    if forall j :: 0 <= j < |cities| ==> !HasCity(cities[..j], cities[j].city) {
      forall i, j | 0 <= i < j < |cities| ensures cities[i].city != cities[j].city {
        assert cities[..j][i] == cities[i];
      }
    }
  }

  /** `a` is `b` with some entries dropped and the rest kept in order. */
  ghost predicate IsSubsequence<T>(a: seq<T>, b: seq<T>)
    decreases |b|
  {
    if a == [] then true
    else if b == [] then false
    else (a[0] == b[0] && IsSubsequence(a[1..], b[1..])) || IsSubsequence(a, b[1..])
  }

  /** The filter's test for one entry. */
  predicate Matches(entry: WeatherData, search: string) {
    CaseInsensitiveContains(entry.city, search)
  }

  /** `entries.filter { $0.city.localizedCaseInsensitiveContains(search) }`:
      the matching entries, each as often as it occurs, in their order. */
  function KeepMatching(entries: seq<WeatherData>, search: string): (r: seq<WeatherData>)
    ensures IsSubsequence(r, entries)
    ensures forall x :: multiset(r)[x] == if Matches(x, search) then multiset(entries)[x] else 0
    ensures forall x :: x in r <==> x in entries && Matches(x, search)
    decreases |entries|
  {
    if entries == [] then []
    else
      var rest := KeepMatching(entries[1..], search);
      assert entries == [entries[0]] + entries[1..];
      if Matches(entries[0], search) then
        assert ([entries[0]] + rest)[1..] == rest;
        [entries[0]] + rest
      else
        rest
  }

  /** `AddCityView.filteredCities` over the catalog. */
  function FilteredCities(search: string): (r: seq<WeatherData>)
    ensures search == [] ==> r == CATALOG
    ensures search != [] ==> IsSubsequence(r, CATALOG)
    ensures search != [] ==> forall x :: x in r ==> x in CATALOG && Matches(x, search)
    ensures search != [] ==> forall i :: 0 <= i < |CATALOG| && Matches(CATALOG[i], search) ==> CATALOG[i] in r
  {
    if search == [] then CATALOG else KeepMatching(CATALOG, search)
  }

  /** The catalog itself satisfies the no-duplicate-names invariant. */
  lemma CatalogDistinct()
    ensures DistinctCities(CATALOG)
  {
  }

  /** An entry whose folded name lacks one of the folded query's
      characters does not match. */
  lemma MissingCharNoMatch(entry: WeatherData, search: string, k: nat)
    requires k < |search|
    requires forall i :: 0 <= i < |entry.city| ==> FoldChar(entry.city[i]) != FoldChar(search[k])
    ensures !Matches(entry, search)
  {
    var text, pat := FoldCase(entry.city), FoldCase(search);
    forall i: nat ensures !OccursAt(text, pat, i) {
      if i + |pat| <= |text| {
        assert text[i..i + |pat|][k] == text[i + k] != pat[k];
      }
    }
  }

  /** When exactly one entry matches, the filter yields just that entry. */
  lemma {:induction false} KeepMatchingSingle(entries: seq<WeatherData>, search: string, k: nat)
    requires k < |entries| && Matches(entries[k], search)
    requires forall i :: 0 <= i < |entries| && i != k ==> !Matches(entries[i], search)
    ensures KeepMatching(entries, search) == [entries[k]]
    decreases |entries|
  {
    var rest := entries[1..];
    var kept := KeepMatching(rest, search);
    if k > 0 {
      forall i | 0 <= i < |rest| && i != k - 1 ensures !Matches(rest[i], search) {
        assert rest[i] == entries[i + 1];
      }
      KeepMatchingSingle(rest, search, k - 1);
    }
  }

  lemma BuendeMatches(search: string)
    requires FoldCase(search) == "bün"
    ensures Matches(CATALOG[5], search)
  {
    var text := FoldCase(CATALOG[5].city);
    assert text[..3] == "bün";
    assert OccursAt(text, FoldCase(search), 0);
  }

  /** Berlin, Hamburg and Bremen have no `ü`. */
  lemma NoUmlautCities(search: string)
    requires FoldCase(search) == "bün"
    ensures !Matches(CATALOG[0], search) && !Matches(CATALOG[1], search) && !Matches(CATALOG[3], search)
  {
    var c := CATALOG;
    assert FoldChar(search[1]) == 'ü';
    assert !Matches(c[0], search) by { MissingCharNoMatch(c[0], search, 1); }
    assert !Matches(c[1], search) by { MissingCharNoMatch(c[1], search, 1); }
    assert !Matches(c[3], search) by { MissingCharNoMatch(c[3], search, 1); }
  }

  /** München and Köln have no `b`. */
  lemma NoLetterBCities(search: string)
    requires FoldCase(search) == "bün"
    ensures !Matches(CATALOG[2], search) && !Matches(CATALOG[4], search)
  {
    var c := CATALOG;
    assert FoldChar(search[0]) == 'b';
    assert !Matches(c[2], search) by { MissingCharNoMatch(c[2], search, 0); }
    assert !Matches(c[4], search) by { MissingCharNoMatch(c[4], search, 0); }
  }

  lemma OthersDoNotMatch(search: string)
    requires FoldCase(search) == "bün"
    ensures forall i :: 0 <= i < 5 ==> !Matches(CATALOG[i], search)
  {
    NoUmlautCities(search);
    NoLetterBCities(search);
    forall i | 0 <= i < 5 ensures !Matches(CATALOG[i], search) {
      assert i == 0 || i == 1 || i == 2 || i == 3 || i == 4;
    }
  }

  /** Searching "bün" in any casing finds exactly Bünde. */
  lemma SearchBuende(search: string)
    requires FoldCase(search) == "bün"
    ensures FilteredCities(search) == [CATALOG[5]]
  {
    OthersDoNotMatch(search);
    BuendeMatches(search);
    KeepMatchingSingle(CATALOG, search, 5);
  }

  /** The query's casing does not change the result. */
  lemma SearchBuendeCasings()
    ensures FilteredCities("bün") == FilteredCities("BÜN") == FilteredCities("Bün") == [CATALOG[5]]
  {
    assert FoldCase("bün") == "bün";
    assert FoldCase("BÜN") == "bün";
    assert FoldCase("Bün") == "bün";
    SearchBuende("bün");
    SearchBuende("BÜN");
    SearchBuende("Bün");
  }
}
