/** Worked examples of the pipeline on small datasets. */
module Scenarios {
  import opened Results
  import opened Trips
  import opened Counting
  import opened Durations
  import opened Filters
  import opened Loader
  import opened Stats

  function JanuaryMondayTrip(duration: nat): Trip {
    Trip("A", "B", duration, 1, 0, 8, "Subscriber", None, None)
  }

  const JanuaryMondayTrips: seq<Trip> := [JanuaryMondayTrip(120), JanuaryMondayTrip(300), JanuaryMondayTrip(600)]

  /**
   * Three Monday trips in January of 120, 300 and 600 seconds, restricted to January:
   * all three are kept, Monday is the most popular day, the total is 0 days 0 hours
   * 17 minutes 0 seconds and the mean is 5 minutes 40 seconds.
   */
  lemma JanuaryMondays(sources: map<string, seq<Trip>>)
    requires "chicago.csv" in sources && sources["chicago.csv"] == JanuaryMondayTrips
    ensures LoadData(sources, Descriptor("chicago", "january", All)) == Ok(JanuaryMondayTrips)
    ensures TimeStats(JanuaryMondayTrips, "january", All).value.popularDay == Some(0)
    ensures TripDurationStats(JanuaryMondayTrips).value.total == Dhms(0, 0, 17, 0)
    ensures TripDurationStats(JanuaryMondayTrips).value.mean == MinSec(5, 40.0)
  {
    JanuaryIsKept(sources);
    JanuaryPopularDay();
    JanuaryDurations();
  }

  /** Every trip is on a Monday, so Monday is the mode of the day column. */
  lemma JanuaryPopularDay()
    ensures TimeStats(JanuaryMondayTrips, "january", All).value.popularDay == Some(0)
  {
    assert Days(JanuaryMondayTrips) == [0, 0, 0];
  }

  /** 1020 seconds are 17 minutes in total, and 340 seconds on average. */
  lemma JanuaryDurations()
    ensures TripDurationStats(JanuaryMondayTrips).value.total == Dhms(0, 0, 17, 0)
    ensures TripDurationStats(JanuaryMondayTrips).value.mean == MinSec(5, 40.0)
  {
    JanuaryTotal();
    DecomposeToSeconds(Dhms(0, 0, 17, 0));
    MeanSplitMinutesAreFloor(1020, 3);
  }

  /** All three trips are in January, so the January restriction keeps them all. */
  lemma JanuaryIsKept(sources: map<string, seq<Trip>>)
    requires "chicago.csv" in sources && sources["chicago.csv"] == JanuaryMondayTrips
    ensures LoadData(sources, Descriptor("chicago", "january", All)) == Ok(JanuaryMondayTrips)
  {
    MonthIndexRoundTrip(1);
    SelectKeepsAll(JanuaryMondayTrips, MonthIs(1));
  }

  /** 120 + 300 + 600 seconds. */
  lemma JanuaryTotal()
    ensures TotalDuration(JanuaryMondayTrips) == 1020
  {
  }

  /** Two trips over the same route and one other trip: that route is the most popular one. */
  lemma SharedRoute(a: Trip, b: Trip, c: Trip)
    requires (a.start, a.end) == (b.start, b.end) != (c.start, c.end)
    ensures StationStats([a, b, c]).value.route == (a.start, a.end)
  {
    var routes := Routes([a, b, c]);
    assert routes == [(a.start, a.end), (a.start, a.end), (c.start, c.end)];
    StrictWinnerIsMostFrequent(routes, (a.start, a.end));
  }
}
