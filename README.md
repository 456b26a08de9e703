# Weather app: the response-to-display transformations

The weather app (`main.py`) asks a weather provider for the current weather
and a five-day forecast for one postal code, and shows both in a desktop
window. Almost all of it is network and GUI code. What is left once the
HTTP responses have been parsed is two pure reshapings, and this project
models those:

- **The current-weather view** (`get_current_weather`, main.py:58-67). It turns
  a current-weather response into an ordered dict of seven entries. The
  entries are `Weather description`, `Temperature`, `Feels like`, `Humidity`,
  `Wind speed`, `Clouds` and `Icon`. The description is capitalised. Each
  number is followed by its unit (`" °F"`, `" %"` or `" miles/hour"`). The
  icon is the image downloaded for the first condition's icon code.
- **The forecast summary** (`get_forecast`, main.py:80-88). The first dict
  comprehension (`raw_infos`) keeps the forecast entries whose `dt_txt`
  contains `"09:00"`. It keys each kept entry's `main` object by the first
  ten characters of `dt_txt`. A later entry with the same date overwrites
  an earlier one, and the date keeps the position where it was first
  inserted. The second comprehension (`parsed_infos`) turns each `main` into
  a row of four `" °F"` strings: `Temperature`, `Feels like`,
  `Min temperature` and `Max temperature`.

Files and modules:

- `wrappers.dfy` (`Wrappers`): `Option`. It gives the result of a dict
  lookup of an absent key, and `None` also stands for the IndexError that
  `weather[0]` raises on an empty `weather` list.
- `py_dict.dfy` (`PyDict`): Python's insertion-ordered dict as an association
  list with distinct keys. `Put` is `d[k] = v`, `Lookup` is `d.get(k)` and
  `MapValues` is a comprehension over `d.items()`. `Dedup` is the reference
  definition of "distinct elements in first-occurrence order".
- `py_str.dfy` (`PyStr`): the string operations used. These are the substring
  test `pat in s` (`Contains`), the prefix slice `s[:n]` (`Take`),
  `str.capitalize()` (`Capitalize`), and the f-string that puts a unit
  after a value's text (`WithUnit`, with its inverse `StripUnit`).
- `responses.dfy` (`Responses`): the parts of the provider's JSON that are
  read, as datatypes.
- `current_weather.dfy` (`CurrentWeather`): the current-weather view.
- `forecast.dfy` (`Forecast`): `raw_infos`, `parsed_infos` and their
  properties.

Numbers in the responses are a type parameter `N`. Turning a number into
text (the f-string's `{…}`) is a function parameter `toText: N -> string`.
The icon download and decode (`get_icon`) is a function parameter
`fetchIcon: string -> I` from icon code to image.

Facts about main.py that the model keeps:

- The view has seven entries; the seventh is the icon (main.py:66).
- A date with several `09:00` entries keeps the `main` of the last one, at
  the position where the date first appeared (main.py:80).
- The filter is a substring test, so a `dt_txt` whose minutes and seconds
  read `09:00` also passes it (main.py:80).
- The type annotations (`-> CurrentWeather`, `-> List[Forecast]`,
  main.py:48 and 70) do not describe what the functions return; the model
  follows the returned values.

## Model

| member | source | states |
|---|---|---|
| PyDict.Put | main.py:80 | Assigning `d[k] = v` keeps the key order if `k` is present and appends `k` otherwise; a dict with distinct keys stays so |
| PyDict.LookupPut | main.py:80 | After `d[k] = v`, `k` maps to `v` and every other key maps to what it did before (a rebinding overwrites) |
| PyDict.MapValues | main.py:81-88 | A comprehension over `d.items()` keeps the keys in the same order and maps each key's value |
| PyDict.DedupSpec | main.py:80 | The first-occurrence order used for keys keeps every element once, and no others, ordered by where each first occurs |
| PyStr.ContainsIff | main.py:80 | `pat in s` holds exactly when `pat` occurs at some index of `s` |
| PyStr.WithUnit | main.py:61-65 | A value's text followed by its unit (the f-strings also at main.py:83-86); stripping the unit gives the text back |
| PyStr.Take | main.py:80 | `s[:n]` is a prefix of `s` of length `n`, or all of `s` when it is shorter |
| PyStr.Capitalize | main.py:60 | `capitalize()` keeps the length, leaves no lower-case letter first and no upper-case letter after it, and changes letters only in case |
| PyStr.CapitalizeIdempotent | main.py:60 | Capitalising a capitalised description changes nothing |
| PyStr.UnitRoundTrip | main.py:61-65 | Stripping the unit from a unit-suffixed value gives back the value's text, and only such strings read back |
| CurrentWeather.CurrentView | main.py:58-67 | The view exists exactly when the response has a first weather condition; it then has the seven labels, in order, each once |
| CurrentWeather.CurrentViewValues | main.py:59-67 | Each label holds the capitalised description, the five numbers with units °F, °F, %, miles/hour and %, or the icon fetched for the first condition's code |
| CurrentWeather.CurrentViewReadBack | main.py:61-65 | Removing each field's unit recovers the rendering of the number it was built from |
| CurrentWeather.ClearSkyExample | main.py:59-67 | A "clear sky", 75/74/60/5/10, "01d" response gives "Clear sky", "75 °F", "74 °F", "60 %", "5 miles/hour", "10 %" and the "01d" icon |
| Forecast.AtNine | main.py:80 | The comprehension's condition holds exactly when "09:00" occurs at some index of `dt_txt` |
| Forecast.DateKey | main.py:80 | The key is a prefix of `dt_txt` of ten characters, or all of `dt_txt` when shorter |
| Forecast.RawInfos | main.py:80 | `raw_infos` never holds the same date twice |
| Forecast.QualifyingDatesMember | main.py:80 | A date is among the qualifying dates exactly when some entry containing "09:00" has that date prefix |
| Forecast.RawInfosKeys | main.py:80 | The keys of `raw_infos` are the qualifying dates with repeats removed, in the order in which each first occurs |
| Forecast.RawInfosKeySet | main.py:80 | A string is a key exactly when it is the first ten characters of the `dt_txt` of some entry containing "09:00" |
| Forecast.RawInfosKeyOrder | main.py:80 | Of two keys, the earlier one is the date that first occurs earlier among the qualifying entries |
| Forecast.RawInfosLastWins | main.py:80 | The value under a date is the `main` of the last qualifying entry with that date |
| Forecast.RawInfosValueSource | main.py:80 | Every value of `raw_infos` is the `main` of the last qualifying entry with its date |
| Forecast.RawInfosEmpty | main.py:80-89 | `raw_infos` is empty exactly when no entry's `dt_txt` contains "09:00" |
| Forecast.RawInfosCount | main.py:80 | There are as many keys as distinct dates among the qualifying entries |
| Forecast.Row | main.py:82-87 | A day's row has exactly the labels Temperature, Feels like, Min temperature and Max temperature, in that order |
| Forecast.RowReadBack | main.py:83-86 | Each row field is its `main` field's text followed by " °F" (`temp`, `feels_like`, `temp_min`, `temp_max`) |
| Forecast.ParsedInfos | main.py:81-88 | `parsed_infos` has the keys of `raw_infos` in the same order, with each date's `main` turned into its row |
| Forecast.GetForecast | main.py:80-89 | `get_forecast`'s result has distinct keys: the qualifying dates, each once, in first-occurrence order |
| Forecast.GetForecastSpec | main.py:80-89 | The summary has distinct dates in first-occurrence order, the row of the last qualifying entry under each date, and four labels in every row |
| Forecast.NineOClockQualifies | main.py:80 | A 09:00:00 timestamp passes the filter and is keyed by its date |
| Forecast.MinuteNineQualifies | main.py:80 | A 12:09:00 timestamp passes the filter too: the test is on the substring, not on the hour |
| Forecast.NoonExcluded | main.py:80 | A 12:00:00 timestamp does not pass the filter |

## Left out

- HTTP requests (`get_location`, and the fetches in `get_current_weather` and `get_forecast`, main.py:33-38, 51-56, 73-78): network I/O. The model starts from the parsed response.
- `get_icon` (main.py:40-45): URL fetch and PNG decode. It is the parameter `fetchIcon`, and the image is an opaque type.
- Rendering a number inside an f-string: Python's `str` of an int or float. It is the parameter `toText`.
- Missing JSON keys (`KeyError`): the response datatypes always carry every field the code reads. An empty `weather` list (`IndexError`) is modelled, as `None`.
- PyStr.Capitalize: case mapping covers ASCII letters only. Python's `capitalize()` title-cases the first character and lower-cases the rest using full Unicode case mapping.
- Credential loading with `dotenv_values` (main.py:139): file I/O.
- The GUI (`create_tkinter`, `write_date`, `write_current_weather`, `write_forecasts`, `create_button`, main.py:91-135): tkinter widgets, and a wall-clock read in `write_date`. `write_forecasts` reads `values[0]` and so fails on an empty summary. The model only proves when the summary is empty (`Forecast.RawInfosEmpty`).
- The `__main__` block (main.py:137-152): it only wires the fetches to the GUI.
