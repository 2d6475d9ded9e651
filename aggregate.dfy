/** The dashboard's aggregations over a normalised frame: the content-type view,
    the per-year title counts (`count_by_year`), the year-range KPI and the
    bounded sample behind the pairplot. */
module Aggregate {
  import opened Frames
  import opened Normalise
  import opened Histogram
  import opened Sampling

  const TypeColumn := "type"

  /** Only "Movie" and "TV Show" switch the content-type filter on; any other
      choice, including no choice at all, keeps every row. */
  predicate FilterActive(t: Option<string>) {
    t == Some("Movie") || t == Some("TV Show")
  }

  /** The rows that the comparison `q["type"] == t` selects. */
  predicate Matches(r: Row, t: Option<string>) {
    !FilterActive(t) || CellAt(r, TypeColumn) == Text(t.value)
  }

  /** `q[q["type"] == t]`: the rows whose type cell is the text `t`, in order. */
  function RowsOfType(rows: seq<Row>, t: string): seq<Row> {
    if rows == [] then []
    else (if CellAt(rows[0], TypeColumn) == Text(t) then [rows[0]] else []) + RowsOfType(rows[1..], t)
  }

  /** The rows the filter `t` lets through. */
  function Kept(rows: seq<Row>, t: Option<string>): seq<Row> {
    if FilterActive(t) then RowsOfType(rows, t.value) else rows
  }

  /** `Kept` drops exactly the rows that do not match and keeps every other row
      with its multiplicity. */
  lemma {:induction false} KeptRows(rows: seq<Row>, t: Option<string>)
    ensures forall r :: multiset(Kept(rows, t))[r] == if Matches(r, t) then multiset(rows)[r] else 0
  {
    if FilterActive(t) && rows != [] {
      KeptRows(rows[1..], t);
      assert rows == [rows[0]] + rows[1..];
    }
  }

  /** Filtering twice by the same type is filtering once. */
  lemma {:induction false} RowsOfTypeIdempotent(rows: seq<Row>, t: string)
    ensures RowsOfType(RowsOfType(rows, t), t) == RowsOfType(rows, t)
  {
    if rows != [] {
      RowsOfTypeIdempotent(rows[1..], t);
      var rest := RowsOfType(rows[1..], t);
      if CellAt(rows[0], TypeColumn) == Text(t) {
        var once := [rows[0]] + rest;
        assert RowsOfType(rows, t) == once;
        assert once[0] == rows[0] && once[1..] == rest;
      } else {
        assert RowsOfType(rows, t) == [] + rest == rest;
      }
    }
  }

  /** The filter keeps rows in their order: filtering a concatenation is
      concatenating the filtered parts. */
  lemma {:induction false} RowsOfTypeAppend(a: seq<Row>, b: seq<Row>, t: string)
    ensures RowsOfType(a + b, t) == RowsOfType(a, t) + RowsOfType(b, t)
  {
    if a != [] {
      RowsOfTypeAppend(a[1..], b, t);
      assert (a + b)[0] == a[0] && (a + b)[1..] == a[1..] + b;
    } else {
      assert a + b == b;
    }
  }

  // ---------------------------------------------------------------------------
  // The content-type view

  /** `df_view`: the frame restricted to the chosen content type when the filter
      is on and the frame has a type column, the whole frame otherwise. */
  function ContentView(f: Frame, t: Option<string>): (v: Frame)
    ensures v.columns == f.columns
    ensures Valid(f) ==> Valid(v)
    ensures FilterActive(t) && TypeColumn in f.columns ==>
              forall r :: multiset(v.rows)[r] == if Matches(r, t) then multiset(f.rows)[r] else 0
    ensures !(FilterActive(t) && TypeColumn in f.columns) ==> v == f
  {
    if FilterActive(t) && TypeColumn in f.columns then
      KeptRows(f.rows, t);
      var v := Frame(f.columns, RowsOfType(f.rows, t.value));
      assert forall k :: 0 <= k < |v.rows| ==> v.rows[k] in multiset(f.rows);
      v
    else f
  }

  // ---------------------------------------------------------------------------
  // Counting titles per year

  /** `dropna().astype(int)` on the year column of `rows`: the missing cells are
      dropped and the integers kept in order; a text cell cannot be converted. */
  function YearsOf(rows: seq<Row>): Result<seq<int>> {
    if rows == [] then Ok([])
    else
      var rest := YearsOf(rows[1..]);
      match CellAt(rows[0], YearColumn)
      case Missing => rest
      case Num(n) => if rest.Ok? then Ok([n] + rest.value) else rest
      case Text(_) => Err(NotNumeric(YearColumn))
  }

  /** Number of rows kept by the filter `t` whose year cell is `y`. */
  function RowsWithYear(rows: seq<Row>, t: Option<string>, y: int): nat {
    if rows == [] then 0
    else (if Matches(rows[0], t) && CellAt(rows[0], YearColumn) == Num(y) then 1 else 0)
         + RowsWithYear(rows[1..], t, y)
  }

  /** Number of rows kept by the filter `t` whose year cell holds an integer. */
  function RowsWithAnyYear(rows: seq<Row>, t: Option<string>): nat {
    if rows == [] then 0
    else (if Matches(rows[0], t) && CellAt(rows[0], YearColumn).Num? then 1 else 0)
         + RowsWithAnyYear(rows[1..], t)
  }

  /** Number of rows kept by the filter `t` whose year cell is text. */
  function RowsWithTextYear(rows: seq<Row>, t: Option<string>): nat {
    if rows == [] then 0
    else (if Matches(rows[0], t) && CellAt(rows[0], YearColumn).Text? then 1 else 0)
         + RowsWithTextYear(rows[1..], t)
  }

  /** What the year extraction yields from the kept rows, counted per year
      against the original rows. */
  lemma {:induction false} YearsOfKept(rows: seq<Row>, t: Option<string>)
    ensures YearsOf(Kept(rows, t)).Err? <==> RowsWithTextYear(rows, t) > 0
    ensures YearsOf(Kept(rows, t)).Ok? ==>
              && |YearsOf(Kept(rows, t)).value| == RowsWithAnyYear(rows, t)
              && forall y :: multiset(YearsOf(Kept(rows, t)).value)[y] == RowsWithYear(rows, t, y)
  {
    if rows != [] {
      YearsOfKept(rows[1..], t);
      var q, q' := Kept(rows, t), Kept(rows[1..], t);
      if Matches(rows[0], t) {
        assert q == [rows[0]] + q';
        assert q[1..] == q';
      } else {
        assert q == q';
      }
    }
  }

  /** `count_by_year(df, content_type)`. The type filter is applied first and
      reads the type column, which pandas reports as a KeyError when the frame
      has none; without a `release_year_num` column the result is empty. */
  function CountByYear(f: Frame, t: Option<string>): (r: Result<seq<YearCount>>)
    ensures FilterActive(t) && TypeColumn !in f.columns ==> r == Err(MissingColumn(TypeColumn))
    ensures !(FilterActive(t) && TypeColumn !in f.columns) && YearColumn !in f.columns ==> r == Ok([])
    ensures r.Ok? ==> Sorted(r.value)
  {
    if FilterActive(t) && TypeColumn !in f.columns then Err(MissingColumn(TypeColumn))
    else
      var q := Kept(f.rows, t);
      if YearColumn !in f.columns then Ok([])
      else
        match YearsOf(q)
        case Err(e) => Err(e)
        case Ok(years) => CountCorrect(years); Ok(Count(years))
  }

  /** When both columns it reads are there, `CountByYear` fails exactly when a
      kept row has a text year; otherwise its counts add up to the number of kept
      rows with a year, and each year is counted once per kept row holding it. */
  lemma CountByYearCorrect(f: Frame, t: Option<string>)
    requires !(FilterActive(t) && TypeColumn !in f.columns) && YearColumn in f.columns
    ensures CountByYear(f, t).Err? <==> RowsWithTextYear(f.rows, t) > 0
    ensures CountByYear(f, t).Ok? ==>
              && Total(CountByYear(f, t).value) == RowsWithAnyYear(f.rows, t)
              && forall y :: CountOf(CountByYear(f, t).value, y) == RowsWithYear(f.rows, t, y)
  {
    YearsOfKept(f.rows, t);
    var years := YearsOf(Kept(f.rows, t));
    if years.Ok? {
      CountCorrect(years.value);
    }
  }

  /** On a normalised frame the year column holds only integers and missing
      markers, so the counting never fails on a text year. */
  lemma {:induction false} NormalisedYearsNoText(rows: seq<Row>, t: Option<string>)
    requires forall k :: 0 <= k < |rows| ==> !CellAt(rows[k], YearColumn).Text?
    ensures RowsWithTextYear(rows, t) == 0
  {
    if rows != [] {
      NormalisedYearsNoText(rows[1..], t);
    }
  }

  /** The dashboard's trend tab: normalise, then count. With a `release_year`
      column and a usable filter the count succeeds, and it counts the kept rows
      whose `release_year` parses. */
  lemma CountAfterCoerce(f: Frame, t: Option<string>)
    requires YearSource in f.columns && !(FilterActive(t) && TypeColumn !in f.columns)
    ensures var g := CoerceNumericColumns(f);
            CountByYear(g, t).Ok? && Total(CountByYear(g, t).value) == RowsWithAnyYear(g.rows, t)
  {
    var g := CoerceNumericColumns(f);
    assert TypeColumn in g.columns <==> TypeColumn in f.columns;
    NormalisedYearsNoText(g.rows, t);
    CountByYearCorrect(g, t);
  }

  /** Re-applying the filter to the content view (what the trend tab does) gives
      the same counts as filtering once. */
  lemma CountByYearOnView(f: Frame, t: Option<string>)
    ensures CountByYear(ContentView(f, t), t) == CountByYear(f, t)
  {
    if FilterActive(t) && TypeColumn in f.columns {
      RowsOfTypeIdempotent(f.rows, t.value);
    }
  }

  /** As written, the trend tab raises whenever a content type is chosen and
      the frame has no type column, even though the view it counts was left
      unfiltered for exactly that reason. */
  lemma TrendTabRaisesWithoutTypeColumn(f: Frame, t: Option<string>)
    requires FilterActive(t) && TypeColumn !in f.columns
    ensures CountByYear(ContentView(f, t), t) == Err(MissingColumn(TypeColumn))
  {
  }

  /** The counting as evidently intended: the type filter is applied only when
      the frame has a type column, as the content view does. It never reports a
      missing column, and it agrees with `CountByYear` wherever that one has a
      type column to read; without one it counts every row. */
  function CountByYearGuarded(f: Frame, t: Option<string>): (r: Result<seq<YearCount>>)
    ensures r.Err? ==> r.error == NotNumeric(YearColumn)
    ensures TypeColumn in f.columns ==> r == CountByYear(f, t)
    ensures TypeColumn !in f.columns ==> r == CountByYear(f, None)
    ensures r == CountByYear(ContentView(f, t), if TypeColumn in f.columns then t else None)
    ensures YearColumn !in f.columns ==> r == Ok([])
  {
    if TypeColumn in f.columns then
      CountByYearOnView(f, t);
      CountByYearErrors(f, t);
      CountByYear(f, t)
    else
      CountByYearErrors(f, None);
      CountByYear(f, None)
  }

  /** The corrected trend tab: with a `release_year` column, counting the
      normalised frame always succeeds, whatever the filter, and totals the rows
      the filter keeps (all rows when there is no type column) that have a year. */
  lemma CountGuardedAfterCoerce(f: Frame, t: Option<string>)
    requires YearSource in f.columns
    ensures var g := CoerceNumericColumns(f);
            var t' := if TypeColumn in f.columns then t else None;
            && CountByYearGuarded(g, t).Ok?
            && Total(CountByYearGuarded(g, t).value) == RowsWithAnyYear(g.rows, t')
  {
    CoerceColumns(f);
    var t' := if TypeColumn in f.columns then t else None;
    CountAfterCoerce(f, t');
  }

  /** Apart from the missing type column, the only failure of `CountByYear` is a text year. */
  lemma CountByYearErrors(f: Frame, t: Option<string>)
    ensures CountByYear(f, t).Err? ==>
              (FilterActive(t) && TypeColumn !in f.columns) || CountByYear(f, t).error == NotNumeric(YearColumn)
  {
    if !(FilterActive(t) && TypeColumn !in f.columns) && YearColumn in f.columns {
      YearsOfErrors(Kept(f.rows, t));
    }
  }

  lemma {:induction false} YearsOfErrors(rows: seq<Row>)
    ensures YearsOf(rows).Err? ==> YearsOf(rows).error == NotNumeric(YearColumn)
  {
    if rows != [] {
      YearsOfErrors(rows[1..]);
    }
  }

  // ---------------------------------------------------------------------------
  // The year-range KPI

  datatype YearSpan = YearSpan(first: int, last: int)

  function Min(s: seq<int>): (m: int)
    requires |s| > 0
    ensures m in s && forall x :: x in s ==> m <= x
  {
    if |s| == 1 then s[0]
    else
      var m := Min(s[1..]);
      assert forall x :: x in s ==> x == s[0] || x in s[1..];
      if s[0] <= m then s[0] else m
  }

  function Max(s: seq<int>): (m: int)
    requires |s| > 0
    ensures m in s && forall x :: x in s ==> x <= m
  {
    if |s| == 1 then s[0]
    else
      var m := Max(s[1..]);
      assert forall x :: x in s ==> x == s[0] || x in s[1..];
      if s[0] >= m then s[0] else m
  }

  /** The "year range" metric: the least and the greatest present year, or
      nothing ("N/D") when the year column is absent or holds no year. */
  function YearRange(f: Frame): Result<Option<YearSpan>> {
    if YearColumn !in f.columns then Ok(None)
    else
      match YearsOf(f.rows)
      case Err(e) => Err(e)
      case Ok(years) => Ok(if years == [] then None else Some(YearSpan(Min(years), Max(years))))
  }

  /** The years the extraction yields are exactly the integers in the year column. */
  lemma {:induction false} YearsOfMembers(rows: seq<Row>)
    requires YearsOf(rows).Ok?
    ensures forall y :: y in YearsOf(rows).value <==> exists k :: 0 <= k < |rows| && CellAt(rows[k], YearColumn) == Num(y)
  {
    if rows != [] {
      YearsOfMembers(rows[1..]);
      forall y | (exists k :: 0 <= k < |rows| && CellAt(rows[k], YearColumn) == Num(y))
        ensures y in YearsOf(rows).value
      {
        var k :| 0 <= k < |rows| && CellAt(rows[k], YearColumn) == Num(y);
        if k > 0 {
          assert CellAt(rows[1..][k - 1], YearColumn) == Num(y);
        }
      }
      forall y | y in YearsOf(rows).value
        ensures exists k :: 0 <= k < |rows| && CellAt(rows[k], YearColumn) == Num(y)
      {
        if CellAt(rows[0], YearColumn) != Num(y) {
          var k :| 0 <= k < |rows[1..]| && CellAt(rows[1..][k], YearColumn) == Num(y);
          assert CellAt(rows[k + 1], YearColumn) == Num(y);
        }
      }
    }
  }

  /** The range is absent exactly when no row has a year; otherwise both ends
      are years of some row and every row's year lies between them. */
  lemma YearRangeCorrect(f: Frame)
    requires YearColumn in f.columns && YearRange(f).Ok?
    ensures YearRange(f).value.None? <==> forall k :: 0 <= k < |f.rows| ==> CellAt(f.rows[k], YearColumn) == Missing
    ensures YearRange(f).value.Some? ==>
              var span := YearRange(f).value.value;
              && span.first <= span.last
              && (exists k :: 0 <= k < |f.rows| && CellAt(f.rows[k], YearColumn) == Num(span.first))
              && (exists k :: 0 <= k < |f.rows| && CellAt(f.rows[k], YearColumn) == Num(span.last))
              && forall k, y :: 0 <= k < |f.rows| && CellAt(f.rows[k], YearColumn) == Num(y) ==>
                   span.first <= y <= span.last
  {
    var years := YearsOf(f.rows).value;
    YearsOfMembers(f.rows);
    YearsOfErrors(f.rows);
    if years == [] {
      forall k | 0 <= k < |f.rows| ensures CellAt(f.rows[k], YearColumn) == Missing {
        NoTextWhenOk(f.rows, k);
      }
    } else {
      var y0 := years[0];
      assert y0 in years;
    }
  }

  /** When the extraction succeeds no row holds a text year. */
  lemma {:induction false} NoTextWhenOk(rows: seq<Row>, k: nat)
    requires YearsOf(rows).Ok? && k < |rows|
    ensures !CellAt(rows[k], YearColumn).Text?
  {
    if k > 0 {
      NoTextWhenOk(rows[1..], k - 1);
    }
  }

  // ---------------------------------------------------------------------------
  // The bounded sample behind the pairplot

  /** `df[sel]` on one row: only the selected columns. */
  function Project(r: Row, sel: seq<string>): Row {
    map c | c in sel :: CellAt(r, c)
  }

  /** A row with no missing value in any selected column. */
  predicate Complete(r: Row, sel: seq<string>) {
    forall c :: c in sel ==> CellAt(r, c) != Missing
  }

  /** `df[sel].dropna()`: the complete rows, projected, in order. */
  function CompleteRows(rows: seq<Row>, sel: seq<string>): seq<Row> {
    if rows == [] then []
    else (if Complete(rows[0], sel) then [Project(rows[0], sel)] else []) + CompleteRows(rows[1..], sel)
  }

  /** Number of rows with no missing value in the selected columns. */
  function NumComplete(rows: seq<Row>, sel: seq<string>): nat {
    if rows == [] then 0 else (if Complete(rows[0], sel) then 1 else 0) + NumComplete(rows[1..], sel)
  }

  /** Number of complete rows whose projection is `p`. */
  function NumProjectingTo(rows: seq<Row>, sel: seq<string>, p: Row): nat {
    if rows == [] then 0
    else (if Complete(rows[0], sel) && Project(rows[0], sel) == p then 1 else 0)
         + NumProjectingTo(rows[1..], sel, p)
  }

  /** `dropna` yields each projected row once per complete row that projects to it. */
  lemma {:induction false} CompleteRowsCounts(rows: seq<Row>, sel: seq<string>)
    ensures forall p :: multiset(CompleteRows(rows, sel))[p] == NumProjectingTo(rows, sel, p)
  {
    if rows != [] {
      CompleteRowsCounts(rows[1..], sel);
      var rest := CompleteRows(rows[1..], sel);
      if Complete(rows[0], sel) {
        assert CompleteRows(rows, sel) == [Project(rows[0], sel)] + rest;
      } else {
        assert CompleteRows(rows, sel) == rest;
      }
    }
  }

  /** `dropna` keeps rows in their order: it distributes over concatenation. */
  lemma {:induction false} CompleteRowsAppend(a: seq<Row>, b: seq<Row>, sel: seq<string>)
    ensures CompleteRows(a + b, sel) == CompleteRows(a, sel) + CompleteRows(b, sel)
  {
    if a != [] {
      CompleteRowsAppend(a[1..], b, sel);
      assert (a + b)[0] == a[0] && (a + b)[1..] == a[1..] + b;
    } else {
      assert a + b == b;
    }
  }

  /** `dropna` keeps one projected row per complete row and nothing else. */
  lemma {:induction false} CompleteRowsCorrect(rows: seq<Row>, sel: seq<string>)
    ensures |CompleteRows(rows, sel)| == NumComplete(rows, sel)
    ensures forall i :: 0 <= i < |CompleteRows(rows, sel)| ==>
              Complete(CompleteRows(rows, sel)[i], sel) && CompleteRows(rows, sel)[i].Keys == ColumnSet(sel)
    ensures forall k :: 0 <= k < |rows| && Complete(rows[k], sel) ==> Project(rows[k], sel) in CompleteRows(rows, sel)
    ensures forall p :: multiset(CompleteRows(rows, sel))[p] == NumProjectingTo(rows, sel, p)
  {
    CompleteRowsCounts(rows, sel);
    if rows != [] {
      CompleteRowsCorrect(rows[1..], sel);
      var rest := CompleteRows(rows[1..], sel);
      var out := CompleteRows(rows, sel);
      assert Complete(rows[0], sel) ==> out == [Project(rows[0], sel)] + rest;
      assert !Complete(rows[0], sel) ==> out == rest;
      forall k | 0 < k < |rows| && Complete(rows[k], sel) ensures Project(rows[k], sel) in out {
        assert rows[k] == rows[1..][k - 1];
      }
    }
  }

  /** The first selected column the frame does not have, if any. */
  function FirstMissing(sel: seq<string>, columns: seq<string>): (r: Option<string>)
    ensures r.None? <==> forall c :: c in sel ==> c in columns
    ensures r.Some? ==> r.value in sel && r.value !in columns
  {
    if sel == [] then None
    else if sel[0] !in columns then Some(sel[0])
    else
      var r := FirstMissing(sel[1..], columns);
      assert forall c :: c in sel ==> c == sel[0] || c in sel[1..];
      r
  }

  /** The pairplot's data: the selected columns, rows with a missing value
      dropped, and at most `cap` of them. */
  function BoundedSample(f: Frame, sel: seq<string>, cap: nat, draw: seq<nat>): (r: Result<Frame>)
    ensures r.Err? <==> exists c :: c in sel && c !in f.columns
    ensures r.Ok? ==> r.value.columns == sel && |r.value.rows| <= cap
    ensures r.Ok? ==> multiset(r.value.rows) <= multiset(CompleteRows(f.rows, sel))
    ensures r.Ok? ==> forall i :: 0 <= i < |r.value.rows| ==>
                        Complete(r.value.rows[i], sel) && r.value.rows[i].Keys == ColumnSet(sel)
    ensures r.Ok? && NumComplete(f.rows, sel) <= cap ==> r.value.rows == CompleteRows(f.rows, sel)
    ensures r.Ok? && NumComplete(f.rows, sel) > cap ==> |r.value.rows| == cap
  {
    match FirstMissing(sel, f.columns)
    case Some(c) => Err(MissingColumn(c))
    case None =>
      var complete := CompleteRows(f.rows, sel);
      CompleteRowsCorrect(f.rows, sel);
      var rows := if |complete| > cap then Draw(complete, cap, draw) else complete;
      DrawSubMultiset(complete, cap, draw);
      assert forall i :: 0 <= i < |rows| ==> rows[i] in multiset(complete);
      Ok(Frame(sel, rows))
  }

  /** When more complete rows remain than the cap, any `cap` of them, in any
      order, is a possible sample. */
  lemma BoundedSampleCovers(f: Frame, sel: seq<string>, cap: nat, picked: seq<Row>)
    requires forall c :: c in sel ==> c in f.columns
    requires NumComplete(f.rows, sel) > cap && |picked| == cap
    requires multiset(picked) <= multiset(CompleteRows(f.rows, sel))
    ensures exists draw :: BoundedSample(f, sel, cap, draw) == Ok(Frame(sel, picked))
  {
    CompleteRowsCorrect(f.rows, sel);
    DrawCovers(CompleteRows(f.rows, sel), picked);
    var draw := Choices(CompleteRows(f.rows, sel), picked);
    assert BoundedSample(f, sel, cap, draw) == Ok(Frame(sel, picked));
  }

  /** Release years "2018", "2018", "2020" and "bad". */
  const YearsSample := Frame([YearSource], [map[YearSource := Text("2018")], map[YearSource := Text("2018")],
                                            map[YearSource := Text("2020")], map[YearSource := Text("bad")]])

  /** Normalised and counted with no type filter, those years give 2018 twice
      and 2020 once. */
  lemma CountByYearExample()
    ensures CountByYear(CoerceNumericColumns(YearsSample), None) == Ok([YearCount(2018, 2), YearCount(2020, 1)])
  {
    var rows := CoerceNumericColumns(YearsSample).rows;
    CoerceExample();
    YearsExample(rows);
    CountExample();
  }

  lemma CoerceExample()
    ensures var rows := CoerceNumericColumns(YearsSample).rows;
            && |rows| == 4
            && CellAt(rows[0], YearColumn) == Num(2018) && CellAt(rows[1], YearColumn) == Num(2018)
            && CellAt(rows[2], YearColumn) == Num(2020) && CellAt(rows[3], YearColumn) == Missing
  {
    YearTextExamples();
  }

  lemma YearsExample(rows: seq<Row>)
    requires |rows| == 4
    requires CellAt(rows[0], YearColumn) == Num(2018) && CellAt(rows[1], YearColumn) == Num(2018)
    requires CellAt(rows[2], YearColumn) == Num(2020) && CellAt(rows[3], YearColumn) == Missing
    ensures YearsOf(rows) == Ok([2018, 2018, 2020])
  {
    assert rows[3..][0] == rows[3] && rows[3..][1..] == [];
    assert YearsOf(rows[3..]) == Ok([]);
    assert rows[2..][0] == rows[2] && rows[2..][1..] == rows[3..];
    assert [2020] + [] == [2020] && [2018] + [2020] == [2018, 2020] && [2018] + [2018, 2020] == [2018, 2018, 2020];
    assert YearsOf(rows[2..]) == Ok([2020]);
    assert rows[1..][0] == rows[1] && rows[1..][1..] == rows[2..];
    assert YearsOf(rows[1..]) == Ok([2018, 2020]);
  }

  lemma CountExample()
    ensures Count([2018, 2018, 2020]) == [YearCount(2018, 2), YearCount(2020, 1)]
  {
    var years := [2018, 2018, 2020];
    assert [2018][..0] == [];
    assert Count([2018]) == [YearCount(2018, 1)];
    assert [2018, 2018][..1] == [2018];
    assert Count([2018, 2018]) == [YearCount(2018, 2)];
    assert years[..2] == [2018, 2018];
    assert Insert([YearCount(2018, 2)], 2020) == [YearCount(2018, 2)] + Insert([], 2020);
  }
}
