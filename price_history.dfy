/**
 * The daily price history that `yf.Ticker(symbol).history(period="1y", interval="1d")`
 * returns, reduced to what the return calculation reads: the calendar year of each
 * row's date index and its closing price, in ascending date order. The last row is
 * the current price.
 */
module PriceHistory {
  import opened Wrappers

  /** One row of the history: the year of its date and its `Close` column. */
  datatype DailyClose = DailyClose(year: int, close: real)

  type History = seq<DailyClose>

  /** The `Close` column of a history, in the same order. */
  function Closes(h: History): seq<real>
  {
    seq(|h|, i requires 0 <= i < |h| => h[i].close)
  }

  /**
   * The rows whose date falls in `year`, in their original order: the pandas
   * selection `hist[hist.index.year == year]`.
   */
  function YearFilter(h: History, year: int): (r: History)
    ensures |r| <= |h|
    ensures forall i :: 0 <= i < |r| ==> r[i].year == year && r[i] in h
  {
    if h == [] then []
    else (if h[0].year == year then [h[0]] else []) + YearFilter(h[1..], year)
  }

  /** Conversely, every row dated in `year` is kept by the selection. */
  lemma {:induction false} YearFilterKeepsEveryRowOfYear(h: History, year: int)
    ensures forall i :: 0 <= i < |h| && h[i].year == year ==> h[i] in YearFilter(h, year)
  {
    if h != [] {
      YearFilterKeepsEveryRowOfYear(h[1..], year);
      forall i | 0 < i < |h| && h[i].year == year ensures h[i] in YearFilter(h, year) {
        assert h[i] == h[1..][i - 1];
      }
    }
  }

  /**
   * An independent definition of the same selection's first row: the position,
   * searching from the oldest row, of the first row dated in `year`.
   */
  function FirstIndexOfYear(h: History, year: int): (r: Option<nat>)
    ensures r.Some? ==> r.value < |h| && h[r.value].year == year
    ensures r.Some? ==> forall j :: 0 <= j < r.value ==> h[j].year != year
    ensures r.None? ==> forall j :: 0 <= j < |h| ==> h[j].year != year
  {
    if h == [] then None
    else if h[0].year == year then Some(0)
    else match FirstIndexOfYear(h[1..], year)
      case None => None
      case Some(i) => Some(i + 1)
  }

  /**
   * The year filter is empty exactly when no row is dated in `year`, and
   * otherwise it starts with the first such row.
   */
  lemma {:induction false} YearFilterStartsAtFirstIndex(h: History, year: int)
    ensures YearFilter(h, year) == [] <==> FirstIndexOfYear(h, year).None?
    ensures FirstIndexOfYear(h, year).Some? ==>
      YearFilter(h, year)[0] == h[FirstIndexOfYear(h, year).value]
  {
    if h != [] && h[0].year != year {
      YearFilterStartsAtFirstIndex(h[1..], year);
      assert YearFilter(h, year) == YearFilter(h[1..], year);
    }
  }

  /** Selecting a year distributes over concatenating two histories. */
  lemma {:induction false} YearFilterAppend(p: History, h: History, year: int)
    ensures YearFilter(p + h, year) == YearFilter(p, year) + YearFilter(h, year)
  {
    if p != [] {
      assert (p + h)[1..] == p[1..] + h;
      YearFilterAppend(p[1..], h, year);
    } else {
      assert p + h == h;
    }
  }

  /** Years never decrease along the history (its dates ascend). */
  predicate YearsAscending(h: History)
  {
    forall i, j :: 0 <= i <= j < |h| ==> h[i].year <= h[j].year
  }

  /**
   * In a history whose dates ascend and whose last row is in `year`, the rows of
   * `year` are exactly the suffix that starts at the first of them: the
   * year-to-date window.
   */
  lemma {:induction false} YearFilterOfAscendingIsSuffix(h: History, year: int)
    requires YearsAscending(h)
    requires |h| > 0 && h[|h| - 1].year == year
    ensures FirstIndexOfYear(h, year).Some?
    ensures YearFilter(h, year) == h[FirstIndexOfYear(h, year).value..]
  {
    if h[0].year == year {
      assert forall i :: 0 <= i < |h| ==> h[i].year == year by {
        forall i | 0 <= i < |h| ensures h[i].year == year {
          assert h[0].year <= h[i].year <= h[|h| - 1].year;
        }
      }
      AllOfYear(h, year);
    } else {
      AscendingTail(h);
      var t := h[1..];
      YearFilterOfAscendingIsSuffix(t, year);
      var k := FirstIndexOfYear(t, year).value;
      assert FirstIndexOfYear(h, year) == Some(k + 1);
      assert YearFilter(h, year) == YearFilter(t, year);
      assert t[k..] == h[k + 1..];
    }
  }

  /** Helper: dropping the oldest row keeps the dates ascending. */
  lemma AscendingTail(h: History)
    requires YearsAscending(h) && |h| > 0
    ensures YearsAscending(h[1..])
  {
    forall i, j | 0 <= i <= j < |h| - 1 ensures h[1..][i].year <= h[1..][j].year {
      assert h[1..][i] == h[i + 1] && h[1..][j] == h[j + 1];
    }
  }

  /** Helper: a history whose rows are all dated in `year` passes the filter whole. */
  lemma {:induction false} AllOfYear(h: History, year: int)
    requires forall i :: 0 <= i < |h| ==> h[i].year == year
    ensures YearFilter(h, year) == h
  {
    if h != [] {
      AllOfYear(h[1..], year);
      assert h == [h[0]] + h[1..];
    }
  }
}
