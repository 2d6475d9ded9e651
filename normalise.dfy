/** The dashboard's column normaliser (`coerce_numeric_columns`): a copy of the
    frame with a numeric `release_year_num` derived from `release_year` and a
    numeric `duration_num` derived from `duration`, each only when its source
    column exists. Unparseable cells become missing, never an error. */
module Normalise {
  import opened Frames
  import opened Numeric

  const YearSource := "release_year"
  const YearColumn := "release_year_num"
  const DurationSource := "duration"
  const DurationColumn := "duration_num"

  /** `pd.to_numeric(..., errors="coerce")` on one cell: a number stays, text is
      parsed as a signed integer, and whatever does not parse is missing. */
  function ParseYear(c: Cell): Option<int> {
    match c
    case Missing => None
    case Text(s) => ParseInt(s)
    case Num(n) => Some(n)
  }

  /** `astype(str)` on one cell: the missing marker prints as "nan". */
  function ToText(c: Cell): string {
    match c
    case Missing => "nan"
    case Text(s) => s
    case Num(n) => IntToString(n)
  }

  /** `astype(str).str.extract(r"(\d+)")` followed by `to_numeric` on one cell. */
  function ExtractDuration(c: Cell): (r: Option<nat>)
    ensures c.Missing? ==> r == None
    ensures c.Num? ==> r == Some(if c.n < 0 then -c.n else c.n)
    ensures c.Text? ==> (r == None <==> NoDigit(c.s))
    ensures c.Text? && !NoDigit(c.s) ==> r == Some(DigitsValue(FirstRun(c.s)))
  {
    var s := ToText(c);
    FirstDigitRunNone(s);
    if c.Num? then FirstDigitRunOfInt(c.n); FirstDigitRun(s)
    else if !NoDigit(s) then FirstDigitRunFirstRun(s); FirstDigitRun(s)
    else FirstDigitRun(s)
  }

  function DurationCell(c: Cell): Cell {
    match ExtractDuration(c)
    case None => Missing
    case Some(v) => Num(v)
  }

  function YearCells(f: Frame): seq<Cell> {
    seq(|f.rows|, k requires 0 <= k < |f.rows| => ToCell(ParseYear(CellAt(f.rows[k], YearSource))))
  }

  function DurationCells(f: Frame): seq<Cell> {
    seq(|f.rows|, k requires 0 <= k < |f.rows| => DurationCell(CellAt(f.rows[k], DurationSource)))
  }

  /** Lines 24-25: the year step, which touches no column but `release_year_num`. */
  function AddYearColumn(f: Frame): (g: Frame)
    ensures Valid(f) ==> Valid(g)
    ensures |g.rows| == |f.rows|
    ensures g.columns == if YearSource in f.columns && YearColumn !in f.columns
                         then f.columns + [YearColumn] else f.columns
    ensures forall k, c :: 0 <= k < |f.rows| && c != YearColumn ==>
              CellAt(g.rows[k], c) == CellAt(f.rows[k], c)
    ensures forall k :: 0 <= k < |f.rows| ==>
              CellAt(g.rows[k], YearColumn) ==
                if YearSource in f.columns then ToCell(ParseYear(CellAt(f.rows[k], YearSource)))
                else CellAt(f.rows[k], YearColumn)
  {
    if YearSource in f.columns then WithColumn(f, YearColumn, YearCells(f)) else f
  }

  /** Lines 27-29: the duration step, which touches no column but `duration_num`. */
  function AddDurationColumn(f: Frame): (g: Frame)
    ensures Valid(f) ==> Valid(g)
    ensures |g.rows| == |f.rows|
    ensures g.columns == if DurationSource in f.columns && DurationColumn !in f.columns
                         then f.columns + [DurationColumn] else f.columns
    ensures forall k, c :: 0 <= k < |f.rows| && c != DurationColumn ==>
              CellAt(g.rows[k], c) == CellAt(f.rows[k], c)
    ensures forall k :: 0 <= k < |f.rows| ==>
              CellAt(g.rows[k], DurationColumn) ==
                if DurationSource in f.columns then DurationCell(CellAt(f.rows[k], DurationSource))
                else CellAt(f.rows[k], DurationColumn)
  {
    if DurationSource in f.columns then WithColumn(f, DurationColumn, DurationCells(f)) else f
  }

  /** The normalised copy of `f`. The input frame is a value and is not changed;
      the result has as many rows as the input, keeps every cell outside the two
      derived columns, and fills each derived column from its source column when
      that exists. */
  function CoerceNumericColumns(f: Frame): (out: Frame)
    ensures Valid(f) ==> Valid(out)
    ensures |out.rows| == |f.rows|
    ensures forall k, c :: 0 <= k < |f.rows| && c != YearColumn && c != DurationColumn ==>
              CellAt(out.rows[k], c) == CellAt(f.rows[k], c)
    ensures forall k :: 0 <= k < |f.rows| ==>
              CellAt(out.rows[k], YearColumn) ==
                if YearSource in f.columns then ToCell(ParseYear(CellAt(f.rows[k], YearSource)))
                else CellAt(f.rows[k], YearColumn)
    ensures forall k :: 0 <= k < |f.rows| ==>
              CellAt(out.rows[k], DurationColumn) ==
                if DurationSource in f.columns then DurationCell(CellAt(f.rows[k], DurationSource))
                else CellAt(f.rows[k], DurationColumn)
  {
    assert |YearColumn| != |DurationColumn| && |YearColumn| != |DurationSource|;
    AddDurationColumn(AddYearColumn(f))
  }

  /** The normalised frame keeps the original columns, in order, at its front and
      adds a derived column exactly when its source column exists; new derived
      columns are appended year first, then duration. */
  lemma CoerceColumns(f: Frame)
    ensures CoerceNumericColumns(f).columns ==
              f.columns
              + (if YearSource in f.columns && YearColumn !in f.columns then [YearColumn] else [])
              + (if DurationSource in f.columns && DurationColumn !in f.columns then [DurationColumn] else [])
    ensures var out := CoerceNumericColumns(f);
            && |f.columns| <= |out.columns| && out.columns[..|f.columns|] == f.columns
            && forall c :: c in out.columns <==>
                 (|| c in f.columns
                  || (c == YearColumn && YearSource in f.columns)
                  || (c == DurationColumn && DurationSource in f.columns))
  {
    assert |YearColumn| != |DurationSource|;
    var withYear := AddYearColumn(f);
    assert withYear.columns[..|f.columns|] == f.columns;
    var out := AddDurationColumn(withYear);
    assert out.columns[..|withYear.columns|] == withYear.columns;
  }

  /** The derived year column holds a value exactly where the source cell is a
      number or a signed digit string, and the missing marker everywhere else. */
  lemma YearColumnMissingExactly(f: Frame, k: nat)
    requires YearSource in f.columns && k < |f.rows|
    ensures var src := CellAt(f.rows[k], YearSource);
            CellAt(CoerceNumericColumns(f).rows[k], YearColumn).Missing? <==>
              src.Missing? || (src.Text? && ParseInt(src.s) == None)
  {
  }

  /** Normalising twice gives the same frame as normalising once: the derived
      columns are computed from the source columns only. */
  lemma CoerceIdempotent(f: Frame)
    ensures CoerceNumericColumns(CoerceNumericColumns(f)) == CoerceNumericColumns(f)
  {
    var g := CoerceNumericColumns(f);
    assert |YearColumn| != |DurationColumn| && |YearColumn| != |DurationSource|;
    if YearSource in f.columns {
      WithColumnUnchanged(g, YearColumn, YearCells(g));
    }
    assert AddYearColumn(g) == g;
    if DurationSource in f.columns {
      WithColumnUnchanged(g, DurationColumn, DurationCells(g));
    }
  }

  /** "90 min" is 90 minutes and "3 Seasons" is 3 seasons. */
  lemma DurationExamples()
    ensures ExtractDuration(Text("90 min")) == Some(90)
    ensures ExtractDuration(Text("3 Seasons")) == Some(3)
  {
    var ninety := "90 min";
    assert ninety[0..2] == "90" && "90"[..1] == "9" && "9"[..0] == "";
    FirstDigitRunAt(ninety, 0, 2);
    var three := "3 Seasons";
    assert three[0..1] == "3";
    FirstDigitRunAt(three, 0, 1);
  }

  /** Only the first run counts: "Season 3: 10 Episodes" gives 3. */
  lemma DurationFirstRunExample()
    ensures ExtractDuration(Text("Season 3: 10 Episodes")) == Some(3)
  {
    var episodes := "Season 3: 10 Episodes";
    var prefix, run := episodes[..7], episodes[7..8];
    assert prefix == "Season ";
    assert NoDigit(prefix);
    assert run == "3";
    assert AllDigits(run) && DigitsValue(run) == 3;
    assert !IsDigit(episodes[8]);
    FirstDigitRunAt(episodes, 7, 8);
    assert FirstDigitRun(episodes) == Some(3);
  }

  /** Text without digits, and a missing cell (printed "nan"), give no duration. */
  lemma DurationMissingExamples()
    ensures ExtractDuration(Text("abc")) == None
    ensures ExtractDuration(Missing) == None
  {
    assert NoDigit("abc");
  }

  /** "2018" and "2020" are years; "bad" and the empty text are not. */
  lemma YearTextExamples()
    ensures ParseYear(Text("2018")) == Some(2018) && ParseYear(Text("2020")) == Some(2020)
    ensures ParseYear(Text("bad")) == None && ParseYear(Text("")) == None
  {
    assert "2018"[..3] == "201" && "201"[..2] == "20" && "20"[..1] == "2" && "2"[..0] == "";
    assert "2020"[..3] == "202" && "202"[..2] == "20";
    assert !IsDigit("bad"[0]);
  }
}
