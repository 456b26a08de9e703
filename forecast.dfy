/**
 * The per-day summary `get_forecast` returns. `RawInfos` is the dict
 * comprehension that keeps the forecast entries whose `dt_txt` contains
 * "09:00" and keys each kept entry's `main` by the first ten characters of
 * its `dt_txt`; `ParsedInfos` is the comprehension that turns each kept
 * `main` into a row of four labelled, unit-suffixed strings. The rendering
 * of a number is the parameter `toText`.
 */
module Forecast {
  import opened Wrappers
  import opened PyDict
  import opened PyStr
  import opened Responses

  /** The comprehension's condition: `'09:00' in x['dt_txt']`. */
  predicate AtNine<N>(e: ForecastEntry<N>)
    ensures AtNine(e) <==> exists i :: OccursAt(e.dtTxt, "09:00", i)
  {
    ContainsIff(e.dtTxt, "09:00");
    Contains(e.dtTxt, "09:00")
  }

  /**
   * The comprehension's key: `x['dt_txt'][:10]`, the date part of the
   * timestamp, or the whole timestamp when it is shorter.
   */
  function DateKey<N>(e: ForecastEntry<N>): (k: string)
    ensures k <= e.dtTxt
    ensures |k| == if |e.dtTxt| < 10 then |e.dtTxt| else 10
  {
    Take(e.dtTxt, 10)
  }

  /**
   * `raw_infos`: the comprehension runs through the entries in list order
   * and assigns `d[DateKey(x)] = x['main']` for each entry that passes the
   * condition, so a later entry overwrites an earlier one with the same key.
   */
  function RawInfos<N>(entries: seq<ForecastEntry<N>>): (d: Dict<string, MainFields<N>>)
    ensures Wf(d)
  {
    if entries == [] then []
    else
      var init, e := entries[..|entries| - 1], entries[|entries| - 1];
      if AtNine(e) then Put(RawInfos(init), DateKey(e), e.main) else RawInfos(init)
  }

  /** The keys of the entries that pass the condition, in list order, repeats included. */
  function QualifyingDates<N>(entries: seq<ForecastEntry<N>>): seq<string> {
    if entries == [] then []
    else
      var init, e := entries[..|entries| - 1], entries[|entries| - 1];
      if AtNine(e) then QualifyingDates(init) + [DateKey(e)] else QualifyingDates(init)
  }

  /** Entry `j` passes the condition with key `k`, and no later entry does. */
  predicate IsLastFor<N>(entries: seq<ForecastEntry<N>>, k: string, j: int) {
    && 0 <= j < |entries| && AtNine(entries[j]) && DateKey(entries[j]) == k
    && forall j' :: j < j' < |entries| && AtNine(entries[j']) ==> DateKey(entries[j']) != k
  }

  /** A date occurs among the qualifying dates exactly when some qualifying entry has it. */
  lemma {:induction false} QualifyingDatesMember<N>(entries: seq<ForecastEntry<N>>, k: string)
    ensures k in QualifyingDates(entries) <==>
            exists i :: 0 <= i < |entries| && AtNine(entries[i]) && DateKey(entries[i]) == k
  {
    if entries != [] {
      var init := entries[..|entries| - 1];
      QualifyingDatesMember(init, k);
      if exists i :: 0 <= i < |entries| && AtNine(entries[i]) && DateKey(entries[i]) == k {
        var i :| 0 <= i < |entries| && AtNine(entries[i]) && DateKey(entries[i]) == k;
        if i < |init| { assert init[i] == entries[i]; }
      }
      if exists i :: 0 <= i < |init| && AtNine(init[i]) && DateKey(init[i]) == k {
        var i :| 0 <= i < |init| && AtNine(init[i]) && DateKey(init[i]) == k;
        assert entries[i] == init[i];
      }
    }
  }

  /**
   * Key order: the keys of `raw_infos` are the qualifying dates with
   * repeats removed, each where it first occurs.
   */
  lemma {:induction false} RawInfosKeys<N>(entries: seq<ForecastEntry<N>>)
    ensures Keys(RawInfos(entries)) == Dedup(QualifyingDates(entries))
  {
    if entries != [] {
      var init, e := entries[..|entries| - 1], entries[|entries| - 1];
      RawInfosKeys(init);
      if AtNine(e) {
        var qs := QualifyingDates(init) + [DateKey(e)];
        assert qs[..|qs| - 1] == QualifyingDates(init);
        DedupSpec(QualifyingDates(init));
      }
    }
  }

  /**
   * Keys: a date is a key of `raw_infos` exactly when some entry that
   * passes the condition has it as its date prefix.
   */
  lemma RawInfosKeySet<N>(entries: seq<ForecastEntry<N>>, k: string)
    ensures k in Keys(RawInfos(entries)) <==>
            exists i :: 0 <= i < |entries| && AtNine(entries[i]) && DateKey(entries[i]) == k
  {
    RawInfosKeys(entries);
    DedupSpec(QualifyingDates(entries));
    QualifyingDatesMember(entries, k);
  }

  /**
   * Key order, entry by entry: of any two keys of `raw_infos`, the one
   * that comes first is the one whose date first occurs earlier among the
   * qualifying entries.
   */
  lemma RawInfosKeyOrder<N>(entries: seq<ForecastEntry<N>>, p: nat, q: nat)
    requires p < q < |RawInfos(entries)|
    ensures var ks, qs := Keys(RawInfos(entries)), QualifyingDates(entries);
      ks[p] in qs && ks[q] in qs && FirstIndex(qs, ks[p]) < FirstIndex(qs, ks[q])
  {
    RawInfosKeys(entries);
    DedupSpec(QualifyingDates(entries));
    var ks := Keys(RawInfos(entries));
    assert ks[p] in ks && ks[q] in ks;
  }

  /**
   * Overwrite rule: the value stored under a date is the `main` of the
   * last qualifying entry with that date.
   */
  lemma {:induction false} RawInfosLastWins<N>(entries: seq<ForecastEntry<N>>, k: string, j: nat)
    requires IsLastFor(entries, k, j)
    ensures Lookup(RawInfos(entries), k) == Some(entries[j].main)
  {
    var init, e := entries[..|entries| - 1], entries[|entries| - 1];
    if j == |entries| - 1 {
      LookupPut(RawInfos(init), k, e.main, k);
    } else {
      assert IsLastFor(init, k, j) by {
        forall j' | j < j' < |init| && AtNine(init[j']) ensures DateKey(init[j']) != k {
          assert init[j'] == entries[j'];
        }
      }
      RawInfosLastWins(init, k, j);
      if AtNine(e) {
        LookupPut(RawInfos(init), DateKey(e), e.main, k);
      }
    }
  }

  /** Every date that has a qualifying entry has a last one. */
  lemma {:induction false} LastExists<N>(entries: seq<ForecastEntry<N>>, k: string, i: nat)
    requires i < |entries| && AtNine(entries[i]) && DateKey(entries[i]) == k
    ensures exists j :: IsLastFor(entries, k, j)
    decreases |entries| - i
  {
    if !IsLastFor(entries, k, i) {
      var j' :| i < j' < |entries| && AtNine(entries[j']) && DateKey(entries[j']) == k;
      LastExists(entries, k, j');
    }
  }

  /**
   * Every value of `raw_infos` comes from the last qualifying entry with
   * its date: together with RawInfosKeySet and RawInfosLastWins this fixes
   * `raw_infos` completely.
   */
  lemma RawInfosValueSource<N>(entries: seq<ForecastEntry<N>>, k: string)
    requires k in Keys(RawInfos(entries))
    ensures exists j :: IsLastFor(entries, k, j) && Lookup(RawInfos(entries), k) == Some(entries[j].main)
  {
    RawInfosKeySet(entries, k);
    var i :| 0 <= i < |entries| && AtNine(entries[i]) && DateKey(entries[i]) == k;
    LastExists(entries, k, i);
    var j :| IsLastFor(entries, k, j);
    RawInfosLastWins(entries, k, j);
  }

  /**
   * Empty case: `raw_infos` is empty exactly when no entry's timestamp
   * contains "09:00".
   */
  lemma RawInfosEmpty<N>(entries: seq<ForecastEntry<N>>)
    ensures RawInfos(entries) == [] <==> forall i :: 0 <= i < |entries| ==> !AtNine(entries[i])
  {
    if exists i :: 0 <= i < |entries| && AtNine(entries[i]) {
      var i :| 0 <= i < |entries| && AtNine(entries[i]);
      RawInfosKeySet(entries, DateKey(entries[i]));
    }
    if RawInfos(entries) != [] {
      var k := Keys(RawInfos(entries))[0];
      RawInfosKeySet(entries, k);
    }
  }

  /** There are as many keys as distinct dates among the qualifying entries. */
  lemma RawInfosCount<N>(entries: seq<ForecastEntry<N>>)
    ensures |RawInfos(entries)| == |set k | k in QualifyingDates(entries)|
  {
    var qs := QualifyingDates(entries);
    RawInfosKeys(entries);
    DedupSpec(qs);
    DistinctCard(Dedup(qs));
    assert (set k | k in Dedup(qs)) == (set k | k in qs);
  }

  const RowLabels: seq<string> := ["Temperature", "Feels like", "Min temperature", "Max temperature"]

  /** One day's row: `temp`, `feels_like`, `temp_min` and `temp_max`, each followed by " °F". */
  function Row<N>(m: MainFields<N>, toText: N -> string): (r: Dict<string, string>)
    ensures Keys(r) == RowLabels && Wf(r)
  {
    var row := [
      ("Temperature", WithUnit(toText(m.temp), Fahrenheit)),
      ("Feels like", WithUnit(toText(m.feelsLike), Fahrenheit)),
      ("Min temperature", WithUnit(toText(m.tempMin), Fahrenheit)),
      ("Max temperature", WithUnit(toText(m.tempMax), Fahrenheit))
    ];
    assert Keys(row) == RowLabels;
    row
  }

  /**
   * Each field of a row is in degrees Fahrenheit, and stripping the unit
   * gives back the rendering of the matching field of `main`.
   */
  lemma RowReadBack<N>(m: MainFields<N>, toText: N -> string)
    ensures var r := Row(m, toText);
      && StripUnit(r[0].1, Fahrenheit) == Some(toText(m.temp))
      && StripUnit(r[1].1, Fahrenheit) == Some(toText(m.feelsLike))
      && StripUnit(r[2].1, Fahrenheit) == Some(toText(m.tempMin))
      && StripUnit(r[3].1, Fahrenheit) == Some(toText(m.tempMax))
  {
  }

  /** `parsed_infos`: the same keys in the same order, each `main` turned into its row. */
  function ParsedInfos<N>(raw: Dict<string, MainFields<N>>, toText: N -> string)
    : (p: Dict<string, Dict<string, string>>)
    ensures Keys(p) == Keys(raw)
    ensures forall k :: k in Keys(raw) ==> Lookup(p, k) == Some(Row(Lookup(raw, k).value, toText))
  {
    MapValues(raw, m => Row(m, toText))
  }

  /**
   * What `get_forecast` returns for a parsed forecast `list`: one key per
   * date that has a qualifying entry, in first-occurrence order.
   */
  function GetForecast<N>(entries: seq<ForecastEntry<N>>, toText: N -> string)
    : (r: Dict<string, Dict<string, string>>)
    ensures Wf(r)
    ensures Keys(r) == Dedup(QualifyingDates(entries))
  {
    RawInfosKeys(entries);
    ParsedInfos(RawInfos(entries), toText)
  }

  /**
   * The summary as a whole: its keys are the distinct qualifying dates in
   * first-occurrence order, the row under each date is built from the last
   * qualifying entry with that date, and every row has the four labels.
   */
  lemma GetForecastSpec<N>(entries: seq<ForecastEntry<N>>, toText: N -> string, k: string, j: nat)
    ensures Wf(GetForecast(entries, toText))
    ensures Keys(GetForecast(entries, toText)) == Dedup(QualifyingDates(entries))
    ensures forall i :: 0 <= i < |GetForecast(entries, toText)| ==>
              Keys(GetForecast(entries, toText)[i].1) == RowLabels
    ensures IsLastFor(entries, k, j) ==>
              Lookup(GetForecast(entries, toText), k) == Some(Row(entries[j].main, toText))
  {
    var raw := RawInfos(entries);
    var p := GetForecast(entries, toText);
    RawInfosKeys(entries);
    forall i | 0 <= i < |p| ensures Keys(p[i].1) == RowLabels {
      assert Keys(p)[i] == Keys(raw)[i];
      LookupAt(p, i);
      assert Lookup(p, Keys(raw)[i]) == Some(Row(Lookup(raw, Keys(raw)[i]).value, toText));
    }
    if IsLastFor(entries, k, j) {
      RawInfosLastWins(entries, k, j);
    }
  }

  /** The usual 09:00 timestamp passes the condition and is keyed by its date. */
  lemma NineOClockQualifies(m: MainFields<int>)
    ensures AtNine(ForecastEntry("2024-05-01 09:00:00", m))
    ensures DateKey(ForecastEntry("2024-05-01 09:00:00", m)) == "2024-05-01"
  {
    ContainsIff("2024-05-01 09:00:00", "09:00");
    NineAtHour();
  }

  /** Where "09:00" sits in the 09:00 timestamp. */
  lemma NineAtHour()
    ensures OccursAt("2024-05-01 09:00:00", "09:00", 11)
  {
  }

  /**
   * The condition is a substring test, not a test of the hour: a timestamp
   * whose minutes and seconds read "09:00" passes it too.
   */
  lemma MinuteNineQualifies(m: MainFields<int>)
    ensures AtNine(ForecastEntry("2024-05-01 12:09:00", m))
  {
    ContainsIff("2024-05-01 12:09:00", "09:00");
    NineAtMinute();
  }

  /** Where "09:00" sits in the 12:09:00 timestamp. */
  lemma NineAtMinute()
    ensures OccursAt("2024-05-01 12:09:00", "09:00", 14)
  {
  }

  /** The midday timestamp has no digit 9 at all. */
  lemma NoNineIn()
    ensures forall j :: 0 <= j < |"2024-05-01 12:00:00"| ==> "2024-05-01 12:00:00"[j] != '9'
  {
  }

  /** A midday timestamp does not pass the condition. */
  lemma NoonExcluded(m: MainFields<int>)
    ensures !AtNine(ForecastEntry("2024-05-01 12:00:00", m))
  {
    var s := "2024-05-01 12:00:00";
    ContainsIff(s, "09:00");
    NoNineIn();
    if exists i :: OccursAt(s, "09:00", i) {
      var i :| OccursAt(s, "09:00", i);
      OccursAtChar(s, "09:00", i, 1);
      assert false;
    }
  }
}
