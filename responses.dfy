/**
 * The parts of the weather provider's JSON responses that the program reads,
 * as plain values. Numbers are left abstract (type parameter `N`): the
 * program never computes with them, it only renders them as text.
 */
module Responses {

  /** One element of the `weather` list of a current-weather response. */
  datatype Condition = Condition(description: string, icon: string)

  /** The `main` object of a current-weather response or of a forecast entry. */
  datatype MainFields<N> = MainFields(temp: N, feelsLike: N, tempMin: N, tempMax: N, humidity: N)

  datatype Wind<N> = Wind(speed: N)

  datatype Clouds<N> = Clouds(all: N)

  /** A current-weather response: `weather`, `main`, `wind` and `clouds`. */
  datatype CurrentResponse<N> = CurrentResponse(weather: seq<Condition>, main: MainFields<N>, wind: Wind<N>, clouds: Clouds<N>)

  /** One 3-hour entry of a forecast response's `list`: its `dt_txt` timestamp and `main`. */
  datatype ForecastEntry<N> = ForecastEntry(dtTxt: string, main: MainFields<N>)
}
