/**
 * The view `get_current_weather` returns: an ordered dict from seven labels
 * to display cells, built from a parsed current-weather response. The
 * rendering of a number (`toText`) and the icon download (`fetchIcon`, the
 * icon image for an icon code) are parameters.
 */
module CurrentWeather {
  import opened Wrappers
  import opened PyDict
  import opened PyStr
  import opened Responses

  /** A view value: a label's text, or the decoded icon image. */
  datatype Cell<I> = Text(text: string) | Image(image: I)

  const Labels: seq<string> :=
    ["Weather description", "Temperature", "Feels like", "Humidity", "Wind speed", "Clouds", "Icon"]

  /**
   * The view of response `w`. Reading `weather[0]` of an empty `weather`
   * list raises IndexError in the source; that is the `None` result.
   */
  function CurrentView<N, I>(w: CurrentResponse<N>, toText: N -> string, fetchIcon: string -> I)
    : (r: Option<Dict<string, Cell<I>>>)
    ensures r.Some? <==> |w.weather| > 0
    ensures r.Some? ==> Keys(r.value) == Labels && Wf(r.value)
  {
    if |w.weather| == 0 then None
    else
      var c := w.weather[0];
      var view := [
        ("Weather description", Text(Capitalize(c.description))),
        ("Temperature", Text(WithUnit(toText(w.main.temp), Fahrenheit))),
        ("Feels like", Text(WithUnit(toText(w.main.feelsLike), Fahrenheit))),
        ("Humidity", Text(WithUnit(toText(w.main.humidity), Percent))),
        ("Wind speed", Text(WithUnit(toText(w.wind.speed), MilesPerHour))),
        ("Clouds", Text(WithUnit(toText(w.clouds.all), Percent))),
        ("Icon", Image(fetchIcon(c.icon)))
      ];
      assert Keys(view) == Labels;
      Some(view)
  }

  /**
   * What each label of the view holds: the capitalised description of the
   * first condition, the five numbers each followed by its unit, and the
   * icon fetched for the first condition's icon code.
   */
  lemma CurrentViewValues<N, I>(w: CurrentResponse<N>, toText: N -> string, fetchIcon: string -> I)
    requires |w.weather| > 0
    ensures var v := CurrentView(w, toText, fetchIcon).value;
      && Lookup(v, "Weather description") == Some(Text(Capitalize(w.weather[0].description)))
      && Lookup(v, "Temperature") == Some(Text(WithUnit(toText(w.main.temp), Fahrenheit)))
      && Lookup(v, "Feels like") == Some(Text(WithUnit(toText(w.main.feelsLike), Fahrenheit)))
      && Lookup(v, "Humidity") == Some(Text(WithUnit(toText(w.main.humidity), Percent)))
      && Lookup(v, "Wind speed") == Some(Text(WithUnit(toText(w.wind.speed), MilesPerHour)))
      && Lookup(v, "Clouds") == Some(Text(WithUnit(toText(w.clouds.all), Percent)))
      && Lookup(v, "Icon") == Some(Image(fetchIcon(w.weather[0].icon)))
  {
    var v := CurrentView(w, toText, fetchIcon).value;
    LookupAt(v, 0);
    LookupAt(v, 1);
    LookupAt(v, 2);
    LookupAt(v, 3);
    LookupAt(v, 4);
    LookupAt(v, 5);
    LookupAt(v, 6);
  }

  /**
   * The numbers can be read back from the view: stripping each text field's
   * unit gives the number's rendering.
   */
  lemma CurrentViewReadBack<N, I>(w: CurrentResponse<N>, toText: N -> string, fetchIcon: string -> I)
    requires |w.weather| > 0
    ensures var v := CurrentView(w, toText, fetchIcon).value;
      && StripUnit(v[1].1.text, Fahrenheit) == Some(toText(w.main.temp))
      && StripUnit(v[2].1.text, Fahrenheit) == Some(toText(w.main.feelsLike))
      && StripUnit(v[3].1.text, Percent) == Some(toText(w.main.humidity))
      && StripUnit(v[4].1.text, MilesPerHour) == Some(toText(w.wind.speed))
      && StripUnit(v[5].1.text, Percent) == Some(toText(w.clouds.all))
  {
  }

  /** "clear sky" capitalises to "Clear sky". */
  lemma ClearSkyCapitalized()
    ensures Capitalize("clear sky") == "Clear sky"
  {
  }

  /**
   * A response with description "clear sky", temperature 75, feels-like 74,
   * humidity 60, wind speed 5, cloudiness 10 and icon code "01d", whose
   * numbers render as those digits.
   */
  lemma ClearSkyExample(fetchIcon: string -> int)
    ensures var w := CurrentResponse([Condition("clear sky", "01d")],
                                     MainFields("75", "74", "73", "77", "60"), Wind("5"), Clouds("10"));
      CurrentView(w, (n: string) => n, fetchIcon) == Some([
        ("Weather description", Text("Clear sky")),
        ("Temperature", Text("75 °F")),
        ("Feels like", Text("74 °F")),
        ("Humidity", Text("60 %")),
        ("Wind speed", Text("5 miles/hour")),
        ("Clouds", Text("10 %")),
        ("Icon", Image(fetchIcon("01d")))
      ])
  {
    ClearSkyCapitalized();
    var w := CurrentResponse([Condition("clear sky", "01d")],
                             MainFields("75", "74", "73", "77", "60"), Wind("5"), Clouds("10"));
    var id := (n: string) => n;
    assert id("75") == "75" && id("74") == "74" && id("60") == "60" && id("5") == "5" && id("10") == "10";
    assert WithUnit("75", Fahrenheit) == "75 °F";
    assert WithUnit("74", Fahrenheit) == "74 °F";
    assert WithUnit("60", Percent) == "60 %";
    assert WithUnit("5", MilesPerHour) == "5 miles/hour";
    assert WithUnit("10", Percent) == "10 %";
  }
}
