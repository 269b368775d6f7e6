/** The four reports computed from the filtered trips. */
module Stats {
  import opened Results
  import opened Trips
  import opened Counting
  import opened Durations
  import Filters
  import Registry

  /** Most popular month and day (only when not restricted to one) and most popular start hour. */
  datatype TimeReport = TimeReport(popularMonth: Option<int>, popularDay: Option<int>, popularHour: int)

  /** The most frequent times of travel; the mode of an empty column does not exist. */
  function TimeStats(ds: seq<Trip>, month: string, day: string): (r: Result<TimeReport>)
    ensures r.Err? <==> |ds| == 0
    ensures r.Err? ==> r.error == NoDataForFilter
    ensures r.Ok? ==> (r.value.popularMonth.Some? <==> month == Filters.All)
    ensures r.Ok? ==> (r.value.popularDay.Some? <==> day == Filters.All)
    ensures r.Ok? && month == Filters.All ==> IsMode(Months(ds), r.value.popularMonth.value)
    ensures r.Ok? && day == Filters.All ==> IsMode(Days(ds), r.value.popularDay.value)
    ensures r.Ok? ==> IsMode(Hours(ds), r.value.popularHour)
  {
    if |ds| == 0 then Err(NoDataForFilter)
    else
      Ok(TimeReport(
        if month == Filters.All then Some(Mode(Months(ds))) else None,
        if day == Filters.All then Some(Mode(Days(ds))) else None,
        Mode(Hours(ds))))
  }

  /** The reported month, day and hour lie in the ranges the calendar derivation produces. */
  lemma TimeStatsInRange(ds: seq<Trip>, month: string, day: string)
    requires AllWellFormed(ds) && |ds| > 0
    ensures var r := TimeStats(ds, month, day).value;
      && (r.popularMonth.Some? ==> 1 <= r.popularMonth.value <= 12)
      && (r.popularDay.Some? ==> 0 <= r.popularDay.value <= 6)
      && 0 <= r.popularHour <= 23
  {
  }

  /** Most popular start station, end station and (start, end) route. */
  datatype StationReport = StationReport(start: Station, end: Station, route: (Station, Station))

  /** The most popular stations and trip; ties go to the value met first. */
  function StationStats(ds: seq<Trip>): (r: Result<StationReport>)
    ensures r.Err? <==> |ds| == 0
    ensures r.Err? ==> r.error == NoDataForFilter
    ensures r.Ok? ==> IsMostFrequent(StartStations(ds), r.value.start)
    ensures r.Ok? ==> IsMostFrequent(EndStations(ds), r.value.end)
    ensures r.Ok? ==> IsMostFrequent(Routes(ds), r.value.route)
  {
    if |ds| == 0 then Err(NoDataForFilter)
    else Ok(StationReport(MostFrequent(StartStations(ds)), MostFrequent(EndStations(ds)), MostFrequent(Routes(ds))))
  }

  /** The most popular route is a trip somebody actually made. */
  lemma PopularRouteIsATrip(ds: seq<Trip>)
    requires |ds| > 0
    ensures exists i :: 0 <= i < |ds| && (ds[i].start, ds[i].end) == StationStats(ds).value.route
  {
    var route := StationStats(ds).value.route;
    var i :| 0 <= i < |Routes(ds)| && Routes(ds)[i] == route;
    assert (ds[i].start, ds[i].end) == route;
  }

  /** Total travel time as days/hours/minutes/seconds and mean travel time as minutes/seconds. */
  datatype DurationReport = DurationReport(total: Dhms, mean: MinSec)

  /** Total and mean trip duration; the mean of no trips does not exist. */
  function TripDurationStats(ds: seq<Trip>): (r: Result<DurationReport>)
    ensures r.Err? <==> |ds| == 0
    ensures r.Err? ==> r.error == NoDataForFilter
    ensures r.Ok? ==> Normal(r.value.total) && ToSeconds(r.value.total) == TotalDuration(ds)
    ensures r.Ok? ==>
      r.value.mean.minutes as real * 60.0 + r.value.mean.seconds == TotalDuration(ds) as real / |ds| as real
    ensures r.Ok? ==> 0.0 <= r.value.mean.seconds < 60.0
  {
    if |ds| == 0 then Err(NoDataForFilter)
    else Ok(DurationReport(Decompose(TotalDuration(ds)), MeanSplit(TotalDuration(ds), |ds|)))
  }

  /** Gender counts and earliest, most recent and most common birth year. */
  datatype Demographics = Demographics(genders: seq<Entry<string>>, earliest: int, recent: int, common: int)

  /** User-type counts, and the demographic breakdown where the city records it. */
  datatype UserReport = UserReport(userTypes: seq<Entry<string>>, demographics: Option<Demographics>)

  /**
   * Statistics on the users. Washington records neither gender nor birth year, so
   * that part is skipped there; elsewhere the birth-year statistics need at least one
   * recorded birth year.
   */
  function UserStats(ds: seq<Trip>, city: string): (r: Result<UserReport>)
    ensures city == Registry.Washington ==> r.Ok? && r.value.demographics.None?
    ensures city != Registry.Washington ==> (r.Err? <==> |BirthYears(ds)| == 0)
    ensures r.Err? ==> r.error == NoDataForFilter
    ensures r.Ok? ==> TotalCount(r.value.userTypes) == |ds|
    ensures r.Ok? ==> IsValueCounts(r.value.userTypes, UserTypes(ds))
    ensures r.Ok? && city != Registry.Washington ==> r.value.demographics.Some?
    ensures r.Ok? && r.value.demographics.Some? ==>
      var d := r.value.demographics.value;
      && TotalCount(d.genders) == |Genders(ds)|
      && IsValueCounts(d.genders, Genders(ds))
      && d.earliest in BirthYears(ds) && d.recent in BirthYears(ds)
      && (forall y :: y in BirthYears(ds) ==> d.earliest <= y <= d.recent)
      && IsMode(BirthYears(ds), d.common)
      && d.earliest <= d.common <= d.recent
  {
    var userTypes := Tally(UserTypes(ds));
    TallyTotal(UserTypes(ds));
    if city == Registry.Washington then Ok(UserReport(userTypes, None))
    else
      var years := BirthYears(ds);
      if |years| == 0 then Err(NoDataForFilter)
      else
        TallyTotal(Genders(ds));
        MinModeMax(years);
        Ok(UserReport(userTypes, Some(Demographics(Tally(Genders(ds)), Min(years), Max(years), Mode(years)))))
  }
}
