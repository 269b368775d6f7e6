/** Loading a city's trips and restricting them to the selected month and day. */
module Loader {
  import opened Results
  import opened Trips
  import opened Filters
  import Registry

  /** The position of the first occurrence of `x` in `s`. */
  function IndexOf<T(==)>(s: seq<T>, x: T): (i: nat)
    requires x in s
    ensures i < |s| && s[i] == x
    ensures forall j :: 0 <= j < i ==> s[j] != x
    decreases |s|
  {
    if s[0] == x then 0 else IndexOf(s[1..], x) + 1
  }

  /** The month number of a month name: its 1-based position in January..June. */
  function MonthIndex(name: string): (m: nat)
    requires name in MonthNames
    ensures 1 <= m <= 6
    ensures MonthNames[m - 1] == name
  {
    IndexOf(MonthNames, name) + 1
  }

  /** The day-of-week number of a weekday name: its 0-based position in Monday..Sunday. */
  function DayIndex(name: string): (d: nat)
    requires name in DayNames
    ensures d <= 6
    ensures DayNames[d] == name
  {
    IndexOf(DayNames, name)
  }

  /** The month names are pairwise distinct, so a month number names exactly one month. */
  lemma MonthIndexRoundTrip(m: nat)
    requires 1 <= m <= 6
    ensures MonthIndex(MonthNames[m - 1]) == m
  {
  }

  /** The weekday names are pairwise distinct, so a day number names exactly one weekday. */
  lemma DayIndexRoundTrip(d: nat)
    requires d <= 6
    ensures DayIndex(DayNames[d]) == d
  {
  }

  /** Month number m carries a month name exactly when m is that name's number. */
  lemma MonthNamedAt(m: nat, month: string)
    requires ValidMonth(month)
    ensures month != All ==> (m == MonthIndex(month) <==> (1 <= m <= 6 && MonthNames[m - 1] == month))
  {
    if month != All && 1 <= m <= 6 && MonthNames[m - 1] == month {
      MonthIndexRoundTrip(m);
    }
  }

  /** Day number d carries a weekday name exactly when d is that name's number. */
  lemma DayNamedAt(d: nat, day: string)
    requires ValidDay(day)
    ensures day != All ==> (d == DayIndex(day) <==> (d <= 6 && DayNames[d] == day))
  {
    if day != All && d <= 6 && DayNames[d] == day {
      DayIndexRoundTrip(d);
    }
  }

  /** A restriction on trips: by month number, by day-of-week number, both, or none. */
  datatype Criterion = Any | MonthIs(month: nat) | DayIs(dow: nat) | Both(first: Criterion, second: Criterion)

  predicate Holds(c: Criterion, t: Trip) {
    match c
    case Any => true
    case MonthIs(m) => t.month == m
    case DayIs(d) => t.dow == d
    case Both(p, q) => Holds(p, t) && Holds(q, t)
  }

  /** The records of `ds` that satisfy `c`, in their original order. */
  function Select(ds: seq<Trip>, c: Criterion): (r: seq<Trip>)
    ensures |r| <= |ds|
    ensures forall i :: 0 <= i < |r| ==> Holds(c, r[i])
    decreases |ds|
  {
    if |ds| == 0 then []
    else (if Holds(c, ds[0]) then [ds[0]] else []) + Select(ds[1..], c)
  }

  /** Every record that satisfies the criterion is kept as often as it occurs, and no other record is kept. */
  lemma {:induction false} SelectExact(ds: seq<Trip>, c: Criterion)
    ensures forall t :: multiset(Select(ds, c))[t] == if Holds(c, t) then multiset(ds)[t] else 0
    decreases |ds|
  {
    if |ds| > 0 {
      SelectExact(ds[1..], c);
      assert ds == [ds[0]] + ds[1..];
      assert multiset(ds) == multiset{ds[0]} + multiset(ds[1..]);
      var head := if Holds(c, ds[0]) then [ds[0]] else [];
      assert Select(ds, c) == head + Select(ds[1..], c);
      assert multiset(Select(ds, c)) == multiset(head) + multiset(Select(ds[1..], c));
    }
  }

  /** `a` is `b` with some elements removed, the rest kept in their order. */
  predicate IsSubsequence<T(==)>(a: seq<T>, b: seq<T>)
    decreases |b|
  {
    |a| == 0 ||
    (|b| > 0 && ((a[0] == b[0] && IsSubsequence(a[1..], b[1..])) || IsSubsequence(a, b[1..])))
  }

  /** A subsequence holds no element more often than the sequence it is taken from. */
  lemma {:induction false} SubsequenceMultiset<T>(a: seq<T>, b: seq<T>)
    requires IsSubsequence(a, b)
    ensures multiset(a) <= multiset(b)
    decreases |b|
  {
    if |a| == 0 {
    } else {
      assert b == [b[0]] + b[1..];
      assert multiset(b) == multiset{b[0]} + multiset(b[1..]);
      if a[0] == b[0] && IsSubsequence(a[1..], b[1..]) {
        SubsequenceMultiset(a[1..], b[1..]);
        assert a == [a[0]] + a[1..];
        assert multiset(a) == multiset{a[0]} + multiset(a[1..]);
      } else {
        SubsequenceMultiset(a, b[1..]);
      }
    }
  }

  /** The selection keeps the original order: it is a subsequence of the input. */
  lemma {:induction false} SelectIsSubsequence(ds: seq<Trip>, c: Criterion)
    ensures IsSubsequence(Select(ds, c), ds)
    decreases |ds|
  {
    if |ds| > 0 {
      var rest := Select(ds[1..], c);
      SelectIsSubsequence(ds[1..], c);
      if Holds(c, ds[0]) {
        var r := [ds[0]] + rest;
        assert Select(ds, c) == r;
        assert r[0] == ds[0] && r[1..] == rest;
      } else {
        assert Select(ds, c) == rest;
      }
    }
  }

  /**
   * The selection is the only subsequence of the input that consists of records
   * satisfying `c` and drops none of them.
   */
  lemma {:induction false} SelectUnique(ds: seq<Trip>, c: Criterion, r: seq<Trip>)
    requires IsSubsequence(r, ds)
    requires forall i :: 0 <= i < |r| ==> Holds(c, r[i])
    requires forall t :: Holds(c, t) ==> multiset(r)[t] == multiset(ds)[t]
    ensures r == Select(ds, c)
    decreases |ds|, 1
  {
    if |ds| == 0 {
      assert |r| == 0;
    } else if Holds(c, ds[0]) {
      UniqueTakesHead(ds, c, r);
      SelectUniqueTail(ds, c, r[1..]);
      assert r == [ds[0]] + r[1..];
    } else {
      UniqueSkipsHead(ds, c, r);
      SelectUniqueTail(ds, c, r);
    }
  }

  /** The induction step of `SelectUnique`: the selection of the tail of `ds`. */
  lemma {:induction false} SelectUniqueTail(ds: seq<Trip>, c: Criterion, r: seq<Trip>)
    requires |ds| > 0
    requires IsSubsequence(r, ds[1..])
    requires forall i :: 0 <= i < |r| ==> Holds(c, r[i])
    requires forall t :: Holds(c, t) ==> multiset(r)[t] == multiset(ds[1..])[t]
    ensures Holds(c, ds[0]) ==> [ds[0]] + r == Select(ds, c)
    ensures !Holds(c, ds[0]) ==> r == Select(ds, c)
    decreases |ds|, 0
  {
    SelectUnique(ds[1..], c, r);
  }

  /** A matching first record must open `r`, and the rest of `r` meets the same conditions on the rest of `ds`. */
  lemma UniqueTakesHead(ds: seq<Trip>, c: Criterion, r: seq<Trip>)
    requires |ds| > 0 && Holds(c, ds[0])
    requires IsSubsequence(r, ds)
    requires forall i :: 0 <= i < |r| ==> Holds(c, r[i])
    requires forall t :: Holds(c, t) ==> multiset(r)[t] == multiset(ds)[t]
    ensures |r| > 0 && r[0] == ds[0]
    ensures IsSubsequence(r[1..], ds[1..])
    ensures forall i :: 0 <= i < |r[1..]| ==> Holds(c, r[1..][i])
    ensures forall t :: Holds(c, t) ==> multiset(r[1..])[t] == multiset(ds[1..])[t]
  {
    assert ds == [ds[0]] + ds[1..];
    assert multiset(ds) == multiset{ds[0]} + multiset(ds[1..]);
    // r cannot skip ds[0]: the rest of ds holds one copy of it too few.
    if |r| == 0 {
      assert false;
    }
    if !(r[0] == ds[0] && IsSubsequence(r[1..], ds[1..])) {
      SubsequenceMultiset(r, ds[1..]);
      assert false;
    }
    assert r == [r[0]] + r[1..];
    assert multiset(r) == multiset{r[0]} + multiset(r[1..]);
    forall i | 0 <= i < |r[1..]|
      ensures Holds(c, r[1..][i])
    {
      assert r[1..][i] == r[i + 1];
    }
  }

  /** A non-matching first record cannot open `r`, so `r` lies within the rest of `ds`. */
  lemma UniqueSkipsHead(ds: seq<Trip>, c: Criterion, r: seq<Trip>)
    requires |ds| > 0 && !Holds(c, ds[0])
    requires IsSubsequence(r, ds)
    requires forall i :: 0 <= i < |r| ==> Holds(c, r[i])
    requires forall t :: Holds(c, t) ==> multiset(r)[t] == multiset(ds)[t]
    ensures IsSubsequence(r, ds[1..])
    ensures forall t :: Holds(c, t) ==> multiset(r)[t] == multiset(ds[1..])[t]
  {
    assert ds == [ds[0]] + ds[1..];
    assert multiset(ds) == multiset{ds[0]} + multiset(ds[1..]);
    if |r| > 0 && r[0] == ds[0] {
      assert false;
    }
    if |r| == 0 {
      assert IsSubsequence(r, ds[1..]);
    }
  }

  /** Two selections applied one after the other agree with one selection by both criteria. */
  lemma {:induction false} SelectConjunction(ds: seq<Trip>, p: Criterion, q: Criterion)
    ensures Select(Select(ds, p), q) == Select(ds, Both(p, q))
    decreases |ds|
  {
    if |ds| > 0 {
      SelectConjunction(ds[1..], p, q);
      var rest := Select(ds[1..], p);
      if Holds(p, ds[0]) {
        assert Select(ds, p) == [ds[0]] + rest;
        assert ([ds[0]] + rest)[1..] == rest;
      } else {
        assert Select(ds, p) == rest;
      }
    }
  }

  /** Selections by two criteria that agree on every record are equal. */
  lemma {:induction false} SelectExtensional(ds: seq<Trip>, p: Criterion, q: Criterion)
    requires forall t :: Holds(p, t) == Holds(q, t)
    ensures Select(ds, p) == Select(ds, q)
    decreases |ds|
  {
    if |ds| > 0 {
      SelectExtensional(ds[1..], p, q);
    }
  }

  /** The order of two selections does not matter. */
  lemma SelectCommutes(ds: seq<Trip>, p: Criterion, q: Criterion)
    ensures Select(Select(ds, p), q) == Select(Select(ds, q), p)
  {
    SelectConjunction(ds, p, q);
    SelectConjunction(ds, q, p);
    SelectExtensional(ds, Both(p, q), Both(q, p));
  }

  /** A selection that every record passes returns the input unchanged. */
  lemma {:induction false} SelectKeepsAll(ds: seq<Trip>, c: Criterion)
    requires forall i :: 0 <= i < |ds| ==> Holds(c, ds[i])
    ensures Select(ds, c) == ds
    decreases |ds|
  {
    if |ds| > 0 {
      SelectKeepsAll(ds[1..], c);
      assert ds == [ds[0]] + ds[1..];
    }
  }

  /** The restriction a month answer imposes: none for "all", else its month number. */
  function MonthCriterion(month: string): Criterion
    requires ValidMonth(month)
  {
    if month == All then Any else MonthIs(MonthIndex(month))
  }

  /** The restriction a day answer imposes: none for "all", else its day number. */
  function DayCriterion(day: string): Criterion
    requires ValidDay(day)
  {
    if day == All then Any else DayIs(DayIndex(day))
  }

  /** Whether a record passes the month and day restrictions of a valid selection. */
  predicate Matches(t: Trip, month: string, day: string): (b: bool)
    requires ValidMonth(month) && ValidDay(day)
    ensures b <==>
      && (month == All || (1 <= t.month <= 6 && MonthNames[t.month - 1] == month))
      && (day == All || (t.dow <= 6 && DayNames[t.dow] == day))
  {
    MonthNamedAt(t.month, month);
    DayNamedAt(t.dow, day);
    (month == All || t.month == MonthIndex(month)) && (day == All || t.dow == DayIndex(day))
  }

  /** The month restriction followed by the day restriction, each skipped for "all". */
  function Restrict(ds: seq<Trip>, month: string, day: string): (r: seq<Trip>)
    requires ValidMonth(month) && ValidDay(day)
    ensures forall i :: 0 <= i < |r| ==> Matches(r[i], month, day)
    ensures forall t :: Matches(t, month, day) ==> multiset(r)[t] == multiset(ds)[t]
  {
    var byMonth := if month != All then Select(ds, MonthIs(MonthIndex(month))) else ds;
    var byDay := if day != All then Select(byMonth, DayIs(DayIndex(day))) else byMonth;
    RestrictIsSelect(ds, month, day);
    SelectExact(ds, Both(MonthCriterion(month), DayCriterion(day)));
    byDay
  }

  /** The two restrictions in sequence are one selection by `Matches`. */
  lemma RestrictIsSelect(ds: seq<Trip>, month: string, day: string)
    requires ValidMonth(month) && ValidDay(day)
    ensures
      var byMonth := if month != All then Select(ds, MonthIs(MonthIndex(month))) else ds;
      var byDay := if day != All then Select(byMonth, DayIs(DayIndex(day))) else byMonth;
      byDay == Select(ds, Both(MonthCriterion(month), DayCriterion(day)))
    ensures forall t :: Holds(Both(MonthCriterion(month), DayCriterion(day)), t) == Matches(t, month, day)
  {
    var mc := MonthCriterion(month);
    var dc := DayCriterion(day);
    if month == All {
      SelectKeepsAll(ds, Any);
    }
    SelectConjunction(ds, mc, dc);
    if day == All {
      SelectKeepsAll(Select(ds, mc), Any);
    }
  }

  /**
   * The records of the selected city, restricted to the selected month and day.
   * `sources` holds the parsed contents of the available data files by file name.
   */
  function LoadData(sources: map<string, seq<Trip>>, f: Descriptor): (r: Result<seq<Trip>>)
    ensures r == Err(UnknownCity) <==> f.city !in Registry.CityData
    ensures r == Err(MissingSource) <==> f.city in Registry.CityData && Registry.CityData[f.city] !in sources
    ensures r == Err(UnknownMonth) <==>
      f.city in Registry.CityData && Registry.CityData[f.city] in sources && !ValidMonth(f.month)
    ensures r == Err(UnknownDay) <==>
      f.city in Registry.CityData && Registry.CityData[f.city] in sources && ValidMonth(f.month) && !ValidDay(f.day)
    ensures r.Ok? <==> Valid(f) && Registry.CityData[f.city] in sources
    ensures r.Ok? ==> IsSubsequence(r.value, sources[Registry.CityData[f.city]])
    ensures r.Ok? ==> forall i :: 0 <= i < |r.value| ==> Matches(r.value[i], f.month, f.day)
    ensures r.Ok? ==> forall t :: Matches(t, f.month, f.day) ==>
      multiset(r.value)[t] == multiset(sources[Registry.CityData[f.city]])[t]
  {
    if f.city !in Registry.CityData then Err(UnknownCity)
    else if Registry.CityData[f.city] !in sources then Err(MissingSource)
    else if !ValidMonth(f.month) then Err(UnknownMonth)
    else if !ValidDay(f.day) then Err(UnknownDay)
    else
      var ds := sources[Registry.CityData[f.city]];
      RestrictIsSelect(ds, f.month, f.day);
      SelectExact(ds, Both(MonthCriterion(f.month), DayCriterion(f.day)));
      SelectIsSubsequence(ds, Both(MonthCriterion(f.month), DayCriterion(f.day)));
      Ok(Restrict(ds, f.month, f.day))
  }

  /** With no month and no day restriction the city's records come back unchanged. */
  lemma LoadDataAllIsIdentity(sources: map<string, seq<Trip>>, city: string)
    requires ValidCity(city) && Registry.CityData[city] in sources
    ensures LoadData(sources, Descriptor(city, All, All)) == Ok(sources[Registry.CityData[city]])
  {
  }

  /** Restricting by day first and by month second gives the same records. */
  lemma LoadDataOrderIrrelevant(sources: map<string, seq<Trip>>, f: Descriptor)
    requires Valid(f) && Registry.CityData[f.city] in sources
    requires f.month != All && f.day != All
    ensures LoadData(sources, f).value ==
      Select(Select(sources[Registry.CityData[f.city]], DayIs(DayIndex(f.day))), MonthIs(MonthIndex(f.month)))
  {
    var ds := sources[Registry.CityData[f.city]];
    SelectCommutes(ds, MonthIs(MonthIndex(f.month)), DayIs(DayIndex(f.day)));
  }
}
