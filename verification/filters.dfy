/** Validation of the city, month and day answers, and the filter descriptor they produce. */
module Filters {
  import opened Results
  import opened Text
  import Registry

  /** The sentinel meaning "no restriction" for month and day. */
  const All: string := "all"

  /** The months the datasets cover, in calendar order. */
  const MonthNames: seq<string> := ["january", "february", "march", "april", "may", "june"]

  /** The weekdays, Monday first. */
  const DayNames: seq<string> := ["monday", "tuesday", "wednesday", "thursday", "friday", "saturday", "sunday"]

  /** The accepted answers to each of the three questions. */
  const CityChoices: seq<string> := Registry.Cities
  const MonthChoices: seq<string> := MonthNames + [All]
  const DayChoices: seq<string> := DayNames + [All]

  /** The validated selection of one session. */
  datatype Descriptor = Descriptor(city: string, month: string, day: string)

  predicate ValidCity(city: string) {
    city in CityChoices
  }

  predicate ValidMonth(month: string) {
    month in MonthChoices
  }

  predicate ValidDay(day: string) {
    day in DayChoices
  }

  predicate Valid(f: Descriptor) {
    ValidCity(f.city) && ValidMonth(f.month) && ValidDay(f.day)
  }

  /** Every accepted answer is already lower-case. */
  lemma ChoicesAreLower(s: string)
    requires s in CityChoices || s in MonthChoices || s in DayChoices
    ensures IsLower(s)
  {
  }

  /** Every accepted city names a data file, so the registry lookup cannot fail. */
  lemma ValidCityHasSource(city: string)
    requires ValidCity(city)
    ensures city in Registry.CityData
  {
  }

  /** One raw answer, lower-cased and accepted when it is one of `allowed`. */
  function Canonicalise(raw: string, allowed: seq<string>): (r: Option<string>)
    ensures r.Some? <==> Lower(raw) in allowed
    ensures r.Some? ==> r.value == Lower(raw) && IsLower(r.value)
  {
    var s := Lower(raw);
    if s in allowed then Some(s) else None
  }

  /** Canonicalisation ignores case: an answer and its lower-cased form are judged alike. */
  lemma CanonicaliseIgnoresCase(raw: string, allowed: seq<string>)
    ensures Canonicalise(Lower(raw), allowed) == Canonicalise(raw, allowed)
  {
    LowerIdempotent(raw);
  }

  /** Canonicalising an accepted answer again gives the same answer. */
  lemma CanonicaliseIdempotent(raw: string, allowed: seq<string>)
    requires Canonicalise(raw, allowed).Some?
    ensures Canonicalise(Canonicalise(raw, allowed).value, allowed) == Canonicalise(raw, allowed)
  {
    LowerIdempotent(raw);
  }

  /** The accepted answer of one question and how many raw answers the question used up. */
  datatype Answer = Answer(value: string, consumed: nat)

  /**
   * One question asked again and again: the answers are read in order until one
   * is accepted. None when the answers run out first.
   */
  function Ask(answers: seq<string>, allowed: seq<string>): (r: Option<Answer>)
    ensures r.None? ==> forall j :: 0 <= j < |answers| ==> Lower(answers[j]) !in allowed
    ensures r.Some? ==> 0 < r.value.consumed <= |answers|
    ensures r.Some? ==> r.value.value in allowed && r.value.value == Lower(answers[r.value.consumed - 1])
    ensures r.Some? ==> forall j :: 0 <= j < r.value.consumed - 1 ==> Lower(answers[j]) !in allowed
    decreases |answers|
  {
    if |answers| == 0 then None
    else match Canonicalise(answers[0], allowed)
      case Some(v) => Some(Answer(v, 1))
      case None =>
        match Ask(answers[1..], allowed)
        case None => None
        case Some(a) => Some(Answer(a.value, a.consumed + 1))
  }

  /**
   * The three questions asked one after the other on one stream of answers:
   * city, then month, then day. None when the stream ends before all three are accepted.
   */
  function GetFilters(answers: seq<string>): (r: Option<Descriptor>)
    ensures r.Some? ==> Valid(r.value)
    ensures r.Some? ==> IsLower(r.value.city) && IsLower(r.value.month) && IsLower(r.value.day)
    ensures r.Some? ==> r.value.city in Registry.CityData
    ensures Ask(answers, CityChoices).None? ==> r.None?
    ensures var c := Ask(answers, CityChoices);
      c.Some? ==>
        var m := Ask(answers[c.value.consumed..], MonthChoices);
        (m.None? ==> r.None?) &&
        (m.Some? ==>
          var d := Ask(answers[c.value.consumed + m.value.consumed..], DayChoices);
          (r.Some? <==> d.Some?) &&
          (r.Some? ==> r.value == Descriptor(c.value.value, m.value.value, d.value.value)))
  {
    match Ask(answers, CityChoices)
    case None => None
    case Some(c) =>
      var rest := answers[c.consumed..];
      match Ask(rest, MonthChoices)
      case None => None
      case Some(m) =>
        assert rest[m.consumed..] == answers[c.consumed + m.consumed..];
        match Ask(rest[m.consumed..], DayChoices)
        case None => None
        case Some(d) => Some(Descriptor(c.value, m.value, d.value))
  }

  /** Three answers that are each acceptable are taken as given, lower-cased. */
  lemma GetFiltersAcceptsValidAnswers(city: string, month: string, day: string)
    requires ValidCity(Lower(city)) && ValidMonth(Lower(month)) && ValidDay(Lower(day))
    ensures GetFilters([city, month, day]) == Some(Descriptor(Lower(city), Lower(month), Lower(day)))
  {
  }

  /** Rejected answers in front of a question are skipped without changing the outcome. */
  lemma AskSkipsRejected(bad: string, answers: seq<string>, allowed: seq<string>)
    requires Lower(bad) !in allowed
    ensures Ask([bad] + answers, allowed).Some? <==> Ask(answers, allowed).Some?
    ensures Ask(answers, allowed).Some? ==>
      Ask([bad] + answers, allowed).value == Answer(Ask(answers, allowed).value.value, Ask(answers, allowed).value.consumed + 1)
  {
  }
}
