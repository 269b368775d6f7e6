/** Occurrence counts, most frequent values, minimum and maximum over a column. */
module Counting {

  /** How often `x` occurs in `s`. */
  function Count<T(==)>(s: seq<T>, x: T): nat {
    multiset(s)[x]
  }

  /** `r` occurs in `s` and no value occurs in `s` more often. */
  ghost predicate IsMostFrequent<T(!new)>(s: seq<T>, r: T) {
    r in s && forall x :: Count(s, x) <= Count(s, r)
  }

  /**
   * The value that `mode()[0]` picks: among the most frequent values of `s`, the
   * smallest one.
   */
  ghost predicate IsMode(s: seq<int>, r: int) {
    IsMostFrequent(s, r) && forall x :: x in s && Count(s, x) == Count(s, r) ==> r <= x
  }

  /** A candidate of `cands` occurring in `s` at least as often as every other candidate; the first such one. */
  function Leader<T(==)>(s: seq<T>, cands: seq<T>): (r: T)
    requires |cands| > 0
    ensures r in cands
    ensures forall x :: x in cands ==> Count(s, x) <= Count(s, r)
    decreases |cands|
  {
    if |cands| == 1 then cands[0]
    else
      var rest := Leader(s, cands[1..]);
      if Count(s, cands[0]) >= Count(s, rest) then cands[0] else rest
  }

  /** A most frequent value of a non-empty column (the first one in row order when several tie). */
  function MostFrequent<T(==,!new)>(s: seq<T>): (r: T)
    requires |s| > 0
    ensures IsMostFrequent(s, r)
  {
    Leader(s, s)
  }

  /** The smallest of the candidates that occur in `s` most often. */
  function SmallestLeader(s: seq<int>, cands: seq<int>): (r: int)
    requires |cands| > 0
    ensures r in cands
    ensures forall x :: x in cands ==> Count(s, x) <= Count(s, r)
    ensures forall x :: x in cands && Count(s, x) == Count(s, r) ==> r <= x
    decreases |cands|
  {
    if |cands| == 1 then cands[0]
    else
      var rest := SmallestLeader(s, cands[1..]);
      var c0, cr := Count(s, cands[0]), Count(s, rest);
      if c0 > cr || (c0 == cr && cands[0] <= rest) then cands[0] else rest
  }

  /** The mode of a non-empty integer column, ties going to the smallest value. */
  function Mode(s: seq<int>): (r: int)
    requires |s| > 0
    ensures IsMode(s, r)
  {
    SmallestLeader(s, s)
  }

  /** The mode is determined by the column: two values that both qualify are equal. */
  lemma ModeUnique(s: seq<int>, a: int, b: int)
    requires IsMode(s, a) && IsMode(s, b)
    ensures a == b
  {
  }

  /** A value that occurs strictly more often than every other value is the most frequent one. */
  lemma StrictWinnerIsMostFrequent<T(!new)>(s: seq<T>, w: T)
    requires |s| > 0
    requires forall x :: x != w ==> Count(s, x) < Count(s, w)
    ensures MostFrequent(s) == w
  {
  }

  /** The smallest value of a non-empty column. */
  function Min(s: seq<int>): (r: int)
    requires |s| > 0
    ensures r in s
    ensures forall i :: 0 <= i < |s| ==> r <= s[i]
    decreases |s|
  {
    if |s| == 1 then s[0]
    else
      var m := Min(s[1..]);
      if s[0] <= m then s[0] else m
  }

  /** The largest value of a non-empty column. */
  function Max(s: seq<int>): (r: int)
    requires |s| > 0
    ensures r in s
    ensures forall i :: 0 <= i < |s| ==> s[i] <= r
    decreases |s|
  {
    if |s| == 1 then s[0]
    else
      var m := Max(s[1..]);
      if s[0] >= m then s[0] else m
  }

  /** Minimum, mode and maximum of a column are ordered. */
  lemma MinModeMax(s: seq<int>)
    requires |s| > 0
    ensures Min(s) <= Mode(s) <= Max(s)
  {
  }

  /** The distinct values of `s`, in order of first occurrence. */
  function Distinct<T(==,!new)>(s: seq<T>): (r: seq<T>)
    ensures forall x :: x in r <==> x in s
    ensures forall i, j :: 0 <= i < j < |r| ==> r[i] != r[j]
    decreases |s|
  {
    if |s| == 0 then []
    else
      var d := Distinct(s[..|s| - 1]);
      assert s == s[..|s| - 1] + [s[|s| - 1]];
      if s[|s| - 1] in d then d else d + [s[|s| - 1]]
  }

  /** One row of a value-count table. */
  datatype Entry<T> = Entry(value: T, count: nat)

  /**
   * `table` is the value-count table of `s`: one row per distinct value of `s`,
   * each with its exact, positive number of occurrences.
   */
  ghost predicate IsValueCounts<T(!new)>(table: seq<Entry<T>>, s: seq<T>) {
    && (forall i :: 0 <= i < |table| ==> table[i].count == Count(s, table[i].value) && table[i].count > 0)
    && (forall x :: x in s <==> exists i :: 0 <= i < |table| && table[i].value == x)
    && (forall i, j :: 0 <= i < j < |table| ==> table[i].value != table[j].value)
  }

  /** The value-count table of a column: each distinct value with its number of occurrences. */
  function Tally<T(==,!new)>(s: seq<T>): (r: seq<Entry<T>>)
    ensures forall i :: 0 <= i < |r| ==> r[i].count == Count(s, r[i].value) && r[i].count > 0
    ensures forall x :: x in s <==> exists i :: 0 <= i < |r| && r[i].value == x
    ensures forall i, j :: 0 <= i < j < |r| ==> r[i].value != r[j].value
  {
    var d := Distinct(s);
    var r := seq(|d|, i requires 0 <= i < |d| => Entry(d[i], Count(s, d[i])));
    forall i | 0 <= i < |d|
      ensures Count(s, d[i]) > 0
    {
      assert d[i] in d;
      assert d[i] in s;
    }
    assert forall x :: x in s ==> exists i :: 0 <= i < |r| && r[i].value == x by {
      forall x | x in s
        ensures exists i :: 0 <= i < |r| && r[i].value == x
      {
        var i :| 0 <= i < |d| && d[i] == x;
        assert r[i].value == x;
      }
    }
    r
  }

  /** The sum of the counts of a value-count table. */
  function TotalCount<T(==)>(entries: seq<Entry<T>>): nat
    decreases |entries|
  {
    if |entries| == 0 then 0 else entries[0].count + TotalCount(entries[1..])
  }

  /** The summed counts of `keys` in `s`. */
  function SumCounts<T(==)>(s: seq<T>, keys: seq<T>): nat
    decreases |keys|
  {
    if |keys| == 0 then 0 else Count(s, keys[0]) + SumCounts(s, keys[1..])
  }

  /** Prepending `a` to the column adds one for every key equal to `a`. */
  lemma {:induction false} SumCountsCons<T>(a: T, s: seq<T>, keys: seq<T>)
    ensures SumCounts([a] + s, keys) == SumCounts(s, keys) + Count(keys, a)
    decreases |keys|
  {
    if |keys| > 0 {
      SumCountsCons(a, s, keys[1..]);
      assert multiset([a] + s) == multiset{a} + multiset(s);
      assert keys == [keys[0]] + keys[1..];
      assert multiset(keys) == multiset{keys[0]} + multiset(keys[1..]);
    }
  }

  /** Summing the counts over distinct keys that cover the column gives its length. */
  lemma {:induction false} SumCountsOfCover<T>(s: seq<T>, keys: seq<T>)
    requires forall x :: x in s ==> x in keys
    requires forall i, j :: 0 <= i < j < |keys| ==> keys[i] != keys[j]
    ensures SumCounts(s, keys) == |s|
    decreases |s|
  {
    if |s| == 0 {
      SumCountsOfEmpty(s, keys);
    } else {
      assert s == [s[0]] + s[1..];
      SumCountsOfCover(s[1..], keys);
      SumCountsCons(s[0], s[1..], keys);
      DistinctOccursOnce(keys, s[0]);
    }
  }

  lemma {:induction false} SumCountsOfEmpty<T>(s: seq<T>, keys: seq<T>)
    requires |s| == 0
    ensures SumCounts(s, keys) == 0
    decreases |keys|
  {
    if |keys| > 0 {
      SumCountsOfEmpty(s, keys[1..]);
    }
  }

  /** A value of a duplicate-free sequence occurs in it exactly once. */
  lemma {:induction false} DistinctOccursOnce<T>(keys: seq<T>, x: T)
    requires x in keys
    requires forall i, j :: 0 <= i < j < |keys| ==> keys[i] != keys[j]
    ensures Count(keys, x) == 1
    decreases |keys|
  {
    assert keys == [keys[0]] + keys[1..];
    assert multiset(keys) == multiset{keys[0]} + multiset(keys[1..]);
    if keys[0] == x {
      assert x !in keys[1..];
    } else {
      DistinctOccursOnce(keys[1..], x);
    }
  }

  /** The table's total is the sum of counts over its distinct values. */
  lemma {:induction false} TotalCountIsSumCounts<T>(s: seq<T>, d: seq<T>)
    ensures TotalCount(seq(|d|, i requires 0 <= i < |d| => Entry(d[i], Count(s, d[i])))) == SumCounts(s, d)
    decreases |d|
  {
    if |d| > 0 {
      var e := seq(|d|, i requires 0 <= i < |d| => Entry(d[i], Count(s, d[i])));
      var d' := d[1..];
      var e' := seq(|d'|, i requires 0 <= i < |d'| => Entry(d'[i], Count(s, d'[i])));
      assert e[1..] == e';
      TotalCountIsSumCounts(s, d');
    }
  }

  /** The counts of a value-count table add up to the length of the column. */
  lemma TallyTotal<T(!new)>(s: seq<T>)
    ensures TotalCount(Tally(s)) == |s|
  {
    var d := Distinct(s);
    TotalCountIsSumCounts(s, d);
    SumCountsOfCover(s, d);
  }
}
