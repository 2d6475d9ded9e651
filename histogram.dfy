/** `value_counts().sort_index()` on a column of integer years: one entry per
    distinct year, ascending by year, with the number of times it occurs. */
module Histogram {

  datatype YearCount = YearCount(year: int, count: nat)

  predicate StrictlyAscending(h: seq<YearCount>) {
    forall i, j :: 0 <= i < j < |h| ==> h[i].year < h[j].year
  }

  predicate AllPositive(h: seq<YearCount>) {
    forall i :: 0 <= i < |h| ==> h[i].count > 0
  }

  /** A histogram in the shape `value_counts().sort_index()` returns. */
  predicate Sorted(h: seq<YearCount>) {
    StrictlyAscending(h) && AllPositive(h)
  }

  /** The count a histogram gives to `y` (zero when `y` has no entry). */
  function CountOf(h: seq<YearCount>, y: int): nat {
    if h == [] then 0 else (if h[0].year == y then h[0].count else 0) + CountOf(h[1..], y)
  }

  /** The sum of all counts. */
  function Total(h: seq<YearCount>): nat {
    if h == [] then 0 else h[0].count + Total(h[1..])
  }

  /** Counts one more occurrence of `y`, keeping the entries ordered by year. */
  function Insert(h: seq<YearCount>, y: int): (r: seq<YearCount>)
    ensures |r| > 0 && (r[0].year == y || (h != [] && r[0].year == h[0].year))
  {
    if h == [] then [YearCount(y, 1)]
    else if y < h[0].year then [YearCount(y, 1)] + h
    else if y == h[0].year then [YearCount(y, h[0].count + 1)] + h[1..]
    else [h[0]] + Insert(h[1..], y)
  }

  /** The histogram of `years`. */
  function Count(years: seq<int>): seq<YearCount> {
    if years == [] then [] else Insert(Count(years[..|years| - 1]), years[|years| - 1])
  }

  lemma {:induction false} InsertSorted(h: seq<YearCount>, y: int)
    requires Sorted(h)
    ensures Sorted(Insert(h, y))
  {
    if h != [] && y > h[0].year {
      InsertSorted(h[1..], y);
    }
  }

  lemma {:induction false} InsertCounts(h: seq<YearCount>, y: int)
    ensures Total(Insert(h, y)) == Total(h) + 1
    ensures forall z :: CountOf(Insert(h, y), z) == CountOf(h, z) + (if z == y then 1 else 0)
  {
    if h != [] && y > h[0].year {
      InsertCounts(h[1..], y);
      var r := Insert(h, y);
      assert r[1..] == Insert(h[1..], y);
    } else if h != [] && y == h[0].year {
      var r := Insert(h, y);
      assert r[1..] == h[1..];
    } else if h != [] {
      var r := Insert(h, y);
      assert r[1..] == h;
    }
  }

  /** `Count(years)` is ascending by year with positive counts, gives every year
      the number of times it occurs in `years`, and its counts add up to `|years|`. */
  lemma {:induction false} CountCorrect(years: seq<int>)
    ensures Sorted(Count(years))
    ensures Total(Count(years)) == |years|
    ensures forall y :: CountOf(Count(years), y) == multiset(years)[y]
  {
    if years != [] {
      var init, last := years[..|years| - 1], years[|years| - 1];
      CountCorrect(init);
      InsertSorted(Count(init), last);
      InsertCounts(Count(init), last);
      assert years == init + [last];
    }
  }

  /** In an ascending histogram an entry's own count is what `CountOf` gives its year. */
  lemma {:induction false} CountOfEntry(h: seq<YearCount>, i: nat)
    requires StrictlyAscending(h) && i < |h|
    ensures CountOf(h, h[i].year) == h[i].count
  {
    if i == 0 {
      CountOfAbsent(h[1..], h[0].year);
    } else {
      CountOfEntry(h[1..], i - 1);
    }
  }

  /** A year below every entry of an ascending histogram has count zero. */
  lemma {:induction false} CountOfAbsent(h: seq<YearCount>, y: int)
    requires StrictlyAscending(h)
    requires forall i :: 0 <= i < |h| ==> y < h[i].year
    ensures CountOf(h, y) == 0
  {
    if h != [] {
      CountOfAbsent(h[1..], y);
    }
  }

  /** The years with an entry are exactly the years that occur, and each entry's
      count is the number of occurrences of its year. */
  lemma CountEntries(years: seq<int>)
    ensures var h := Count(years);
            forall i :: 0 <= i < |h| ==> h[i].count == multiset(years)[h[i].year] && h[i].year in years
    ensures forall y :: y in years <==> exists i :: 0 <= i < |Count(years)| && Count(years)[i].year == y
  {
    var h := Count(years);
    CountCorrect(years);
    forall i | 0 <= i < |h| ensures h[i].count == multiset(years)[h[i].year] {
      CountOfEntry(h, i);
    }
    forall y | y in years ensures exists i :: 0 <= i < |h| && h[i].year == y {
      CountOfPositive(h, y);
    }
  }

  /** A positive count comes from an entry of that year. */
  lemma {:induction false} CountOfPositive(h: seq<YearCount>, y: int)
    requires CountOf(h, y) > 0
    ensures exists i :: 0 <= i < |h| && h[i].year == y
  {
    if h[0].year != y {
      CountOfPositive(h[1..], y);
      var i :| 0 <= i < |h[1..]| && h[1..][i].year == y;
      assert h[i + 1].year == y;
    }
  }

  /** An ordered histogram that counts nothing has no entries. */
  lemma NoCountsEmpty(h: seq<YearCount>)
    requires Sorted(h)
    requires forall y :: CountOf(h, y) == 0
    ensures h == []
  {
    if h != [] {
      CountOfEntry(h, 0);
    }
  }

  /** Two ordered histograms that give every year the same count are equal, so
      `Count` is the only sorted histogram of its input. */
  lemma {:induction false} SortedUnique(h: seq<YearCount>, g: seq<YearCount>)
    requires Sorted(h) && Sorted(g)
    requires forall y :: CountOf(h, y) == CountOf(g, y)
    ensures h == g
  {
    if h == [] || g == [] {
      NoCountsEmpty(h);
      NoCountsEmpty(g);
    } else {
      CountOfEntry(h, 0);
      CountOfEntry(g, 0);
      if h[0].year < g[0].year {
        CountOfAbsent(g, h[0].year);
        assert false;
      } else if g[0].year < h[0].year {
        CountOfAbsent(h, g[0].year);
        assert false;
      }
      forall y ensures CountOf(h[1..], y) == CountOf(g[1..], y) {
        assert CountOf(h, y) == CountOf(g, y);
        if y == h[0].year {
          assert forall i :: 0 <= i < |h[1..]| ==> h[1..][i] == h[i + 1];
          assert forall i :: 0 <= i < |g[1..]| ==> g[1..][i] == g[i + 1];
          CountOfAbsent(h[1..], y);
          CountOfAbsent(g[1..], y);
        }
      }
      SortedUnique(h[1..], g[1..]);
    }
  }
}
