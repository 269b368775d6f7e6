/** One bikeshare trip, with the calendar fields already derived from its start time. */
module Trips {
  import opened Results

  type Station = string

  /**
   * A trip record. `month` (1..12), `dow` (Monday = 0 .. Sunday = 6) and `hour` (0..23)
   * are derived from the start timestamp; `gender` and `birthYear` are None where the
   * dataset has no such column (Washington) or the cell is empty.
   */
  datatype Trip = Trip(
    start: Station,
    end: Station,
    duration: nat,
    month: nat,
    dow: nat,
    hour: nat,
    userType: string,
    gender: Option<string>,
    birthYear: Option<int>)

  /** The ranges the date-time derivation guarantees. */
  predicate WellFormed(t: Trip) {
    1 <= t.month <= 12 && t.dow <= 6 && t.hour <= 23
  }

  predicate AllWellFormed(ds: seq<Trip>) {
    forall i :: 0 <= i < |ds| ==> WellFormed(ds[i])
  }

  /** One column of the dataset, row by row. */
  function Column<U>(ds: seq<Trip>, field: Trip -> U): (r: seq<U>)
    ensures |r| == |ds|
    ensures forall i :: 0 <= i < |ds| ==> r[i] == field(ds[i])
  {
    seq(|ds|, i requires 0 <= i < |ds| => field(ds[i]))
  }

  function Months(ds: seq<Trip>): seq<int> { Column(ds, (t: Trip) => t.month as int) }
  function Days(ds: seq<Trip>): seq<int> { Column(ds, (t: Trip) => t.dow as int) }
  function Hours(ds: seq<Trip>): seq<int> { Column(ds, (t: Trip) => t.hour as int) }
  function StartStations(ds: seq<Trip>): seq<Station> { Column(ds, (t: Trip) => t.start) }
  function EndStations(ds: seq<Trip>): seq<Station> { Column(ds, (t: Trip) => t.end) }
  function Routes(ds: seq<Trip>): seq<(Station, Station)> { Column(ds, (t: Trip) => (t.start, t.end)) }
  function UserTypes(ds: seq<Trip>): seq<string> { Column(ds, (t: Trip) => t.userType) }

  /** The non-empty cells of an optional column, in row order (empty cells are skipped). */
  function Present<U(!new)>(s: seq<Option<U>>): (r: seq<U>)
    ensures |r| <= |s|
    ensures forall x :: multiset(r)[x] == multiset(s)[Some(x)]
    decreases |s|
  {
    if |s| == 0 then []
    else
      var head: seq<U> := match s[0] case Some(v) => [v] case None => [];
      assert s == [s[0]] + s[1..];
      assert multiset(s) == multiset{s[0]} + multiset(s[1..]);
      head + Present(s[1..])
  }

  function Genders(ds: seq<Trip>): seq<string> { Present(Column(ds, (t: Trip) => t.gender)) }
  function BirthYears(ds: seq<Trip>): seq<int> { Present(Column(ds, (t: Trip) => t.birthYear)) }

  /** The sum of the trip durations, in seconds. */
  function TotalDuration(ds: seq<Trip>): (r: nat)
    ensures forall i :: 0 <= i < |ds| ==> ds[i].duration <= r
    ensures r == 0 <==> forall i :: 0 <= i < |ds| ==> ds[i].duration == 0
    ensures |ds| == 1 ==> r == ds[0].duration
    decreases |ds|
  {
    if |ds| == 0 then 0 else ds[0].duration + TotalDuration(ds[1..])
  }

  /** The total duration of two datasets laid end to end is the sum of their totals. */
  lemma {:induction false} TotalDurationAppend(a: seq<Trip>, b: seq<Trip>)
    ensures TotalDuration(a + b) == TotalDuration(a) + TotalDuration(b)
    decreases |a|
  {
    if |a| == 0 {
      assert a + b == b;
    } else {
      assert (a + b)[1..] == a[1..] + b;
      TotalDurationAppend(a[1..], b);
    }
  }
}
